# Ocara runtime: verified model

A Dafny 4.11 model of the parts of the Ocara runtime whose correctness spans many functions: the
cycle-collecting reference counter and its concurrent collector, the insertion-ordered map, the
`async` task pool, the handshake between threads and the collector, unwinding by exception, the
caching allocator of small blocks, and three self-contained algorithms (calendar, line drawing,
growing strings).

    dafny verify dfyconfig.toml

checks everything. Code that changes fields or arrays step by step in the runtime is imperative
here too: classes with the same fields, methods with the same loops, each proved against what it
is for. Protocols between threads are state machines whose steps are the atomic operations and
lock sections of the runtime, and what is proved of them holds after every sequence of steps.

## What is modelled

**Reference counting** (`RefGraph`, `TrialDeletion`, `CycleCollector`, `ConcurrentCollector`,
`Interference`, `Programs`). The heap is a multigraph: `kids[v]` lists the references inside value `v`, parallel
ones included, and the ghost `ext[v]` counts those held from outside (stack, globals, native code).
A count is always `ext(v) + in-edges(v)`, over the values still alive. `freed` is the list of the
blocks given back to the allocator. `collect_white` gives back once per kept root, and a later walk
can look at the count word of a block that an earlier one gave back; what it finds there (a link of
a list of free blocks, or whatever was put there since) is the arbitrary input `junk`.
`CycleCollector.Heap` holds the
reference counting of `rc.rs`: `destroy` and its worklist, the list of roots, and the synchronous
collection from `mark_gray` to `collect_white`. `ConcurrentCollector.Survey` is the `Graph` of
`rc_concurrent.rs`; what its reads of the heap return, and which values are touched while it runs,
are arbitrary inputs. `Interference` says of any course of a changing heap what makes the verdict of
such a survey safe. `Programs` runs arbitrary sequences of program operations and collections of
both kinds against a world in which nothing ever dies, and proves that the heap agrees with it.

**Map** (`MapHash`, `Probe`, `SlotIndex`, `AssocList`, `MapTable`). `AssocList` is the reference:
pairs in insertion order, one for each text. `MapTable.Table` is the table, with its small mode,
open-addressing index, backward-shift deletion, and integer keys that turn into texts. Every run
of operations on a new table answers as the list does, whatever the seeded hash is.

**Threads** (`Safepoint`, `TaskPool`). Each atomic operation on `RUNNING`, `EXCLUSIVE` and
`COLLECTING`, and each lock section of the task pool, is one step; a wait may end without cause or
time out. A resolver that waits for a running task sleeps until a worker that stores an outcome wakes
all sleepers, or until it wakes without cause.

**Unwinding** (`Unwind`). `longjmp` is an outcome that every call in between passes on. A program
is a tree of calls, bindings, resources, `try`s and raises; any run is such a tree.

**Allocator** (`Allocator`), **calendar** (`Civil`), **raster** (`Raster`), **strings**
(`StrAppend`). `Basics` has what several modules share.

## Where the code and its comments differ

- `alloc_cache.rs` says that a thread's surplus goes to the shared list; a fresh slab still leaves
  more than `LOCAL_MAX` blocks in one thread list (lines 130-135). No bound on a thread list is
  claimed; `Allocator.RefillExceeds` says exactly when a refill passes it.
- `Time_fromTimestamp` (`time.rs:32`) takes the remainder with the sign of the timestamp, unlike
  `civil.rs`; `Civil.TimeAgrees` says exactly when both agree.
- A resolver that runs a task in place marks it `Taken` without waking others (`task.rs:185-189`),
  so a second resolution need not give the default value that the comment at `task.rs:5` promises:
  it may sleep for ever. `TaskPool.SleepsExactly` says exactly when a resolver sleeps on a task that
  no longer runs, `TaskPool.SleepsForGood` that only a wakeup without cause ends it, and
  `TaskPool.SecondSleepsOn` gives the run. An outcome is never lost or handed over twice.
- `collect_white` frees at the end of each walk (`rc.rs:913-915`), while the walks of later roots still
  test the colour of what they meet (`rc.rs:898-899`). When two kept roots hang on the same garbage, a
  later walk tests the word of a freed block, which `alloc_cache.rs:175` has overwritten; if that word
  shows white and unlisted, the block is gone through and freed again. `CycleCollector.Heap.CollectExclusive`
  says exactly when a collection looks at such words, in terms of roots and graph before the call,
  and that it is exact unless one of them shows white and unlisted; `CycleCollector.TwoLoops` gives the
  program: an array that holds itself, and one that holds itself and the first, dropped in this order.

## Model

| member | source | states |
|---|---|---|
| Programs.Run | runtime/src/rc.rs:562-917 | for every sequence of program operations and collections of either kind, from an empty heap, and for whatever is found in freed blocks: unless a walk takes a freed block for a white value, the heap stays in step with what the program means, and after one more collection exactly the values the program can reach are alive; when no freed word shows white and unlisted this never fails |
| Programs.Safe | runtime/src/rc.rs:562-603 | after any such run no value that can be reached was freed, and each count is the references held plus the references inside living values |
| Programs.Perform | runtime/src/rc.rs:747-761 | one operation changes what the program sees as intended and nothing else; a collection leaves exactly the reachable values; a synchronous one goes wrong only when two of its roots hang on the same garbage and a freed word shows white and unlisted, other operations but a release never |
| CycleCollector.Heap.CollectExclusive | runtime/src/rc.rs:779-806 | a collection looks at freed words exactly when two kept roots reach the same cyclic value that nothing outside reaches, stated on roots and graph before the call; it goes right exactly when none of the words seen shows white and unlisted, and then the living values are exactly those reached from outside references, every other block was given back once, no root is left listed, and all invariants hold |
| CycleCollector.Heap.MarkGray | runtime/src/rc.rs:841-856 | each cyclic value reached from the root turns gray once, and each count becomes its references from outside the gray subgraph, never negative |
| CycleCollector.Heap.Subtract | runtime/src/rc.rs:850-853 | taking one value's references out of its cyclic children's counts keeps every count equal to the references not hidden |
| CycleCollector.Heap.Scan | runtime/src/rc.rs:858-874 | the scan ends with its root decided: black is closed under references and reached from outside the subgraph, no white value has an outside reference or an undecided child, and counts are exact with the rest taken out |
| CycleCollector.Heap.ScanBlack | runtime/src/rc.rs:876-891 | everything below a value held from outside turns black and gets its references back in its children's counts |
| CycleCollector.Heap.Restore | runtime/src/rc.rs:881-888 | one value's references come back into the counts of its cyclic children, which turn black, the fresh ones being stacked |
| CycleCollector.Heap.ScanRoots | runtime/src/rc.rs:792-794 | after all scans a value is white exactly when it is in the marked subgraph and no value of it held from outside reaches it |
| CycleCollector.Heap.MarkRoot | runtime/src/rc.rs:782-791 | a root is kept exactly when it is alive and no kept one reaches it; then all below it turns gray; one not kept leaves the list, and its block goes if it was destroyed while listed |
| CycleCollector.Heap.MarkRoots | runtime/src/rc.rs:781-791 | the roots kept are those alive that no earlier kept one reaches; marking from them leaves the gray set closed below them, with counts exact outside it |
| CycleCollector.Heap.Unlist | runtime/src/rc.rs:798-800 | exactly the kept roots lose their listed bit |
| CycleCollector.Heap.CollectWhite | runtime/src/rc.rs:893-917 | exactly the white values that the root reaches are collected and given back, once, and their references to non-cyclic values; a freed word is looked at exactly when the root reaches a value of an earlier walk |
| CycleCollector.Heap.Walk | runtime/src/rc.rs:895-912 | the worklist visits exactly the white values that the root reaches, each once, and keeps all counts of survivors exact, unless it looks at a freed word that shows white; it looks at one exactly when the root reaches a value that an earlier walk gave back |
| CycleCollector.Heap.CollectRoots | runtime/src/rc.rs:801-803 | over all kept roots together, each white value is collected exactly once, unless a freed word looked at shows white; freed words are looked at exactly when two roots reach the same white value |
| CycleCollector.Heap.FreedExactly | runtime/src/rc.rs:893-917 | a value that a walk meets was given back exactly when an earlier walk visited it |
| CycleCollector.TwoLoops | runtime/src/rc.rs:779-806 | two values that hold themselves, the second the first as well, dropped in this order: the collection looks at a freed word, whatever the allocator does, and goes wrong exactly when one shows white and unlisted |
| TrialDeletion.WalkEnd | runtime/src/rc.rs:895-912 | a finished walk visited exactly the white values below its root, and met a freed one exactly when the root reaches one |
| TrialDeletion.SharedExactly | runtime/src/rc.rs:779-806 | what two walks share of the white values is what two roots share of what outside references do not reach |
| CycleCollector.Heap.Unbuffer | runtime/src/rc.rs:770-776 | a root leaves the list, and its block goes if it was destroyed while listed |
| CycleCollector.Heap.ReleaseCounted | runtime/src/rc.rs:589-595 | giving a reference back destroys exactly the least set closed under "all its references come from the set", whatever the order of the worklist, and keeps every other count exact; a value that stays is listed as a root exactly when it can hold references and is not listed yet |
| CycleCollector.Heap.Destroy | runtime/src/rc.rs:631-655 | the worklist ends; each value of that least set is destroyed once; survivors that lost a reference are listed as roots |
| CycleCollector.Heap.TearDown | runtime/src/rc.rs:637-653 | one value gives back all its references, and its block is freed unless it is listed, when it is marked dead |
| CycleCollector.Heap.ReleaseChild | runtime/src/rc.rs:661-679 | a child loses one reference; a leaf at zero is freed, another value at zero is stacked |
| CycleCollector.Heap.ReleaseLeaf | runtime/src/rc.rs:665-675 | a value without references of its own dies exactly when its last reference goes |
| CycleCollector.Heap.ReleaseCyclic | runtime/src/rc.rs:621-626 | a cyclic value that loses a reference is stacked when that was the last, and otherwise listed as a root when it can hold references |
| CycleCollector.Heap.Bury | runtime/src/rc.rs:650-652 | a destroyed value is freed unless listed, when it is marked dead for the collector |
| CycleCollector.Heap.PossibleRoot | runtime/src/rc.rs:698-715 | a value not listed yet is listed last, once, and turns purple; a collection becomes due exactly when the list is then full |
| CycleCollector.Heap.ListRoot | runtime/src/rc.rs:698-715 | and the heap stays in order: the list has each root once, and purple marks exactly the listed ones |
| CycleCollector.Heap.Lower | runtime/src/rc.rs:621-626 | the shared part of every release: one less in the count, after the value was listed if it can hold references and stays |
| CycleCollector.Heap.Decrement | runtime/src/rc.rs:621-626 | one outside reference less, counts exact, exactly a value at zero is left for destruction, and one still shared that can hold references is listed |
| CycleCollector.Heap.Release | runtime/src/rc.rs:589-603 | a release ends in order, destroyed dependants or a full collection, with no collection pending, unless that collection takes a freed block for a white value, which it never does inside another collection |
| CycleCollector.Heap.CollectCycles | runtime/src/rc.rs:747-761 | a collection inside another one does nothing; otherwise exactly the reachable values are left, unless it takes a freed block for a white value |
| CycleCollector.Heap.Alloc | runtime/src/rc.rs:212-225 | a new value has count 1, the one reference its maker holds, and all invariants hold |
| CycleCollector.Heap.Retain | runtime/src/rc.rs:562-568 | one more outside reference, all invariants kept |
| CycleCollector.Heap.Store | runtime/src/lib.rs:524-529 | moving a reference into a container changes no count and keeps all invariants |
| CycleCollector.Heap.Take | runtime/src/lib.rs:808-811 | moving a reference out of a container changes no count and keeps all invariants |
| CycleCollector.Heap.Dealloc | runtime/src/rc.rs:513-520 | a block is given back once, or deferred while a concurrent collection runs: it is in one of the two lists, once |
| CycleCollector.Heap.TakeRoots | runtime/src/rc.rs:764-766 | the listed roots go to a collection, each once, their bits kept |
| CycleCollector.Heap.ReturnRoots | runtime/src/rc.rs:823-826 | the roots a concurrent collection keeps are listed again, and the list's limit follows them |
| CycleCollector.Heap.BeginEpoch | runtime/src/rc.rs:811-814 | a collection is on, in an epoch from 1 to 255, the values of the byte that marks touched values |
| CycleCollector.Heap.EndEpoch | runtime/src/rc.rs:816-822 | each deferred block is given back, once, in order, and none is left |
| TrialDeletion.CollectedExactly | runtime/src/rc.rs:779-806 | collecting the white part of the subgraph below the candidates leaves exactly what outside references reach, given that every unreachable value is below a candidate |
| TrialDeletion.BlackIsReached | runtime/src/rc.rs:858-891 | after the scan, black inside the subgraph is exactly what its outside-held values reach |
| TrialDeletion.AllSettled | runtime/src/rc.rs:858-874 | a finished scan leaves white exactly the rest |
| TrialDeletion.HiddenIsOutside | runtime/src/rc.rs:841-856 | with the subgraph's own edges hidden, a count is the number of references from outside it |
| TrialDeletion.TallyHide | runtime/src/rc.rs:850-852 | subtracting one value's references from its cyclic children keeps counts equal to what is owed |
| TrialDeletion.TallyShow | runtime/src/rc.rs:881-883 | adding them back does too |
| TrialDeletion.CoverAfterLoss | runtime/src/rc.rs:615-626 | after any loss of references, every value still alive but unreachable is below a listed root: no garbage cycle can be missed |
| TrialDeletion.DoomedStep | runtime/src/rc.rs:655-679 | a value whose last reference came from destroyed ones belongs to every set closed under loss: only what must die dies |
| TrialDeletion.StoreStep | runtime/src/lib.rs:524-529 | moving a reference into a container keeps tallies and keeps unreachable values below listed roots |
| TrialDeletion.TakeStep | runtime/src/lib.rs:808-811 | moving one out does too |
| TrialDeletion.AbandonStep | runtime/src/rc_concurrent.rs:117-127 | when a set without owner is about to be freed, its references to survivors count as outside references, and all tallies hold without it |
| RefGraph.ReachLeast | runtime/src/rc.rs:829-839 | what is reached from a set is the least set that contains it and is closed under references |
| ConcurrentCollector.CollectConcurrent | runtime/src/rc.rs:811-827 | on a heap that no other thread changes meanwhile, the concurrent collection leaves exactly the reachable values, as the synchronous one does, and restores all invariants |
| ConcurrentCollector.Collect | runtime/src/rc_concurrent.rs:148-178 | the same for one epoch: the dead part is freed, outside references are as before, and the kept roots are exactly the candidates left |
| ConcurrentCollector.Survey.Trace | runtime/src/rc_concurrent.rs:54-77 | every value met is a node once, every edge of a traced node is recorded in order, and `internal` is the number of recorded edges into each node, whatever the reads return |
| ConcurrentCollector.Survey.MarkLive | runtime/src/rc_concurrent.rs:99-115 | it ends; no recorded edge goes from a live to a dead node; each dead node has count at most `internal` and was untouched at the last check; every live node is reached from one that was counted from outside or touched |
| ConcurrentCollector.Survey.Spread | runtime/src/rc_concurrent.rs:85-95 | spreading marks only what its sources reach, and leaves no edge from them to a dead node |
| ConcurrentCollector.Survey.Sources | runtime/src/rc_concurrent.rs:100-107 | the first sources are the nodes live, counted beyond `internal` or touched |
| ConcurrentCollector.Survey.Sweep | runtime/src/rc_concurrent.rs:110-113 | each later round finds the dead nodes touched since, and marks them |
| ConcurrentCollector.Survey.NodeOf | runtime/src/rc_concurrent.rs:40-49 | one node for each value, with the count read when it is first met |
| ConcurrentCollector.Survey.Expand | runtime/src/rc_concurrent.rs:69-75 | all edges of one node are recorded and counted |
| ConcurrentCollector.Verdict | runtime/src/rc_concurrent.rs:97-115 | with exact reads and no interference the dead nodes are exactly the surveyed values that no outside reference reaches |
| ConcurrentCollector.SameVerdict | runtime/src/rc_concurrent.rs:103-103 | a node counted beyond its internal edges is exactly a value held from outside the surveyed subgraph: both collectors judge alike |
| ConcurrentCollector.LiveIsReached | runtime/src/rc_concurrent.rs:97-115 | a node marked live stands for a value that outside references reach |
| ConcurrentCollector.ReachedIsLive | runtime/src/rc_concurrent.rs:97-115 | and every such value's node is marked live |
| ConcurrentCollector.FreeGarbage | runtime/src/rc_concurrent.rs:124-141 | exactly the references from dead to surviving values are given back, never those between dead values, so every outside count is as before and all dead blocks are gone |
| ConcurrentCollector.GiveBack | runtime/src/rc_concurrent.rs:130-135 | one dead value gives back what it owes to survivors, no more |
| ConcurrentCollector.Judge | runtime/src/rc_concurrent.rs:148-162 | survey and marking together: faithful reads, live part closed, dead nodes without outside count |
| ConcurrentCollector.KeepRoots | runtime/src/rc_concurrent.rs:169-177 | the live roots not destroyed stay candidates, in their order, and exactly the blocks of the destroyed ones are given back |
| Interference.Decide | runtime/src/rc_concurrent.rs:54-115 | beside threads that change the heap: when children and counts were read true at some moment before the marks, and a changed reference marks its value, nothing outside the dead part refers to it at the last look at the marks, and nothing reaches it |
| Interference.DeadUnheld | runtime/src/rc_concurrent.rs:99-115 | every reference to a dead value, at any moment until that look, comes from a dead value |
| Interference.EdgesAre | runtime/src/rc_concurrent.rs:69-75 | the edges recorded to an unmarked value, read at different moments, are its references at one moment |
| Programs.GarbageStays | runtime/src/rc_concurrent.rs:9-12 | what a program cannot reach it never reaches again, whatever it does |
| MapTable.Run | runtime/src/map_table.rs:158-373 | every run of insertions, lookups, removals, positional reads and sorts on a new table answers as the ordered list does, for any seed, while it stores no more than 2^32 - 1 pairs |
| MapTable.Perform | runtime/src/map_table.rs:158-373 | one operation does to the table what it does to the list |
| MapTable.Table.Insert | runtime/src/map_table.rs:288-324 | a known key keeps its place and gets the value, a new one goes last, through the switch to texts, the first index and its doubling; the old value is returned |
| MapTable.Table.Remove | runtime/src/map_table.rs:356-373 | the pair goes, the order of the others stays, the index is valid, and the value is returned |
| MapTable.Table.ClearSlot | runtime/src/map_table.rs:377-391 | it ends, and every other entry is still found by probing, in a slot of its own |
| MapTable.Table.RemoveSlot | runtime/src/map_table.rs:358-371 | clearing and renumbering leave slots and remaining entries in bijection |
| MapTable.Table.Find | runtime/src/map_table.rs:158-171 | it ends, and finds the key's entry and slot, or the empty slot where it belongs when the key is absent |
| MapTable.Table.FindSmall | runtime/src/map_table.rs:175-182 | the place of the key among the entries, or none |
| MapTable.Table.Position | runtime/src/map_table.rs:196-203 | the place of the key in either mode, and its slot exactly when there is an index |
| MapTable.Table.BuildIndex | runtime/src/map_table.rs:207-220 | every entry is indexed, at most every other slot is used |
| MapTable.Table.Grow | runtime/src/map_table.rs:224-231 | the doubled index holds the same entries, placed by the hashes in the slots alone |
| MapTable.Table.UseTextKeys | runtime/src/map_table.rs:233-238 | turning integer keys into texts changes neither the pairs nor the validity of the untouched index |
| MapTable.Table.Get | runtime/src/map_table.rs:248-250 | the value of the key in the list, or none |
| MapTable.Table.ContainsKey | runtime/src/map_table.rs:252-254 | true exactly when the list has the key |
| MapTable.Table.ValueAt | runtime/src/map_table.rs:258-263 | the value of the key, whatever the position hint is |
| MapTable.Table.KeyAt | runtime/src/map_table.rs:267-277 | the key at a position, as an integer or as a text on request, with the pairs unchanged |
| MapTable.Table.SortByKeyText | runtime/src/map_table.rs:342-352 | the pairs in the order of their texts, the index valid again |
| MapTable.Table.Normalize | runtime/src/map_table.rs:140-145 | the same key in the table's form, or none exactly when no integer has that text |
| MapTable.IsKey | runtime/src/map_table.rs:147-154 | keys in either form are equal exactly when their texts are |
| MapTable.Renumbered | runtime/src/map_table.rs:365-371 | counting down the numbers above a removed entry keeps probing and bijection |
| MapTable.NotFound | runtime/src/map_table.rs:158-171 | reaching an empty slot proves the key absent |
| MapTable.MovedOne | runtime/src/map_table.rs:227-230 | moving one slot to a larger index keeps those moved before findable |
| MapTable.PackedFaithful | runtime/src/map_table.rs:103-113 | hash and number share one word without loss, and lowering the word lowers the number alone |
| MapTable.SlotsFit | runtime/src/map_table.rs:111-113 | every slot of a valid table fits its word |
| SlotIndex.FreeSlot | runtime/src/map_table.rs:116-123 | probing ends at an empty slot with only full slots on the way |
| SlotIndex.Room | runtime/src/map_table.rs:314-318 | an index with more slots than entries has an empty slot, so every probe ends |
| SlotIndex.Added | runtime/src/map_table.rs:320-322 | filling that slot keeps every entry findable and in bijection |
| SlotIndex.Met | runtime/src/map_table.rs:158-171 | probing for an entry's hash meets its slot before any empty one |
| SlotIndex.Shift | runtime/src/map_table.rs:385-388 | an entry that moves back into the hole stays on its own probe path, and no other is lost |
| SlotIndex.Keep | runtime/src/map_table.rs:384-388 | an entry whose home lies after the hole does not need it |
| SlotIndex.Emptied | runtime/src/map_table.rs:383-390 | emptying the hole at the end of the run loses no entry |
| SlotIndex.ScanNext | runtime/src/map_table.rs:380-383 | the scan reaches the next slot before it comes round to the hole |
| Probe.StepInverse | runtime/src/map_table.rs:28-36 | five rounds of the iteration give the inverse of the stride modulo 2^64 |
| Probe.AtSteps | runtime/src/map_table.rs:126-128 | after `steps` steps from one slot the probe is at the other: every slot is visited |
| Probe.StepsAt | runtime/src/map_table.rs:126-128 | and that is the only number of steps below the size that leads there |
| Probe.StepsAdd | runtime/src/map_table.rs:126-128 | distances along the ring add up, modulo its size |
| Probe.WordSteps | runtime/src/map_table.rs:126-128 | wrapping 64-bit arithmetic gives the same distance as unbounded arithmetic |
| Probe.SizeDoubles | runtime/src/map_table.rs:224-226 | a doubled index is a power of two again |
| AssocList.StoreLaws | runtime/src/map_table.rs:288-324 | a store changes what is found for one key only, and keys stay unique |
| AssocList.EraseLaws | runtime/src/map_table.rs:356-373 | a removal forgets one key only |
| AssocList.SortedKeeps | runtime/src/map_table.rs:342-352 | sorting puts the same pairs in strictly increasing order of text |
| AssocList.SortLaws | runtime/src/map_table.rs:342-352 | sorting forgets no key |
| MapHash.CanonicalIffDecimal | runtime/src/map_hash.rs:37-42 | a text is read as `v` exactly when it is the decimal text of the 64-bit integer `v` |
| MapHash.HashOfDecimal | runtime/src/map_hash.rs:45-76 | the hash of an integer's text is the hash of the integer, for every integer and seed |
| MapHash.IntText | runtime/src/lib.rs:215-235 | the buffer's end holds the decimal text of any 64-bit integer, within 20 bytes |
| MapHash.PutDigits | runtime/src/lib.rs:216-228 | two digits for each division write exactly the decimal digits |
| MapHash.ScanSuffix | runtime/src/map_hash.rs:22-33 | the backward scan finds the trailing digits, their value and the prefix, without overflow |
| MapHash.DigitsOfValue | runtime/src/map_hash.rs:37-42 | a text of digits without leading zero is that of its value |
| MapHash.ValueOfDigits | runtime/src/lib.rs:215-235 | reading back the digits of a number gives that number |
| TaskPool.PoolConservation | runtime/src/task.rs:120-158 | in every interleaving the queue holds one task for each promised wakeup and each starting worker, idle plus wakeups are the waiting workers, no counter goes negative and no worker finds the queue empty |
| TaskPool.OutcomeOnce | runtime/src/task.rs:79-100 | in every interleaving a task starts at most once, and its outcome is handed over or released at most once, never both; otherwise it is in the slot or with one thread |
| TaskPool.NothingLost | runtime/src/task.rs:136-223 | when all is quiet, resolvers having returned or sleeping, nothing is pending, every task has run, abandoned or not, and its outcome was handed over, released, or waits in a slot |
| TaskPool.HandedOver | runtime/src/task.rs:182-210 | a quiet run in which a resolver returned the outcome |
| TaskPool.SleepsExactly | runtime/src/task.rs:185-198 | in every run a resolver sleeps on a task that no longer runs exactly when another resolver ran that task in place and has marked it taken |
| TaskPool.SleepsForGood | runtime/src/task.rs:195-197 | such a resolver sleeps on in every continuation in which it does not wake without cause |
| TaskPool.QuietSleepers | runtime/src/task.rs:182-210 | when all is quiet the resolvers still asleep are those of tasks that others took in place |
| TaskPool.SecondSleepsOn | runtime/src/task.rs:185-198 | a run of two resolvers in which the first returns the outcome, all is quiet, and the second sleeps in every continuation without a wakeup of its own |
| TaskPool.PutRestful | runtime/src/task.rs:91-98 | a worker that stores an outcome wakes all resolvers that sleep on it |
| TaskPool.AnswerIsOutcome | runtime/src/task.rs:182-210 | what a resolver returns is the outcome its task made, and that task's outcome is not released |
| TaskPool.NeverOverwritten | runtime/src/task.rs:91-98 | an outcome is stored only over a running or an abandoned task, never over another outcome or a taken one |
| TaskPool.StepKeeps | runtime/src/task.rs:79-223 | every step of every thread keeps all of that |
| TaskPool.WakeKeeps | runtime/src/task.rs:144-156 | a wait that ends, by wakeup, time-out or without cause, finds a task when one was promised and an idle worker to subtract otherwise, and keeps the pool balanced |
| TaskPool.FreeKeeps | runtime/src/task.rs:214-223 | giving up the last reference keeps every outcome accounted for, released now or left to the thread that runs the task |
| TaskPool.LookDefaults | runtime/src/task.rs:193-208 | a resolver that waited and finds no outcome finds the task taken by another one, never abandoned |
| TaskPool.StepFaithful | runtime/src/task.rs:79-223 | no step swaps an outcome for another one |
| Safepoint.AloneIsAlone | runtime/src/rc.rs:747-761 | in every interleaving, while one thread collects alone every other is outside compiled code, or held back on its way in |
| Safepoint.CountExact | runtime/src/rc.rs:72-78 | in every interleaving the count is the number of counted threads, never negative |
| Safepoint.OneCollector | runtime/src/rc.rs:747-761 | in every interleaving one thread collects at a time, alone or not |
| Safepoint.AloneExactly | runtime/src/rc.rs:752-757 | a collector goes on alone exactly when no other thread is counted when it looks |
| Safepoint.BackWhenOpen | runtime/src/rc.rs:178-189 | a thread that comes back to run finds no collector alone |
| Safepoint.StepKeeps | runtime/src/rc.rs:159-189 | every step keeps the count, the single collector and its exclusion |
| Unwind.RunProgram | runtime/src/lib.rs:3114-3192 | any program that ends has released every reference once and closed every resource once, with empty stacks; it stops for an exception exactly when one escapes all handlers, and aborts exactly when it enters more than 64 nested tries before an escape |
| Unwind.Runtime.Exec | runtime/src/lib.rs:3114-3172 | a statement ends back in its function with all stacks as they were, or at the innermost `try` with the stacks as that `try` found them; references and handles stay accounted for |
| Unwind.Runtime.ExecTry | runtime/src/lib.rs:3114-3172 | a `try` stops what escapes its body unless its handler raises again, at any depth, and the run aborts exactly when it enters more than 64 nested ones |
| Unwind.Runtime.Fail | runtime/src/lib.rs:3505-3523 | a raise closes the resources above the `try`, newest first, then gives back the locals above it, and leaves the exception there |
| Unwind.Runtime.UnwindTo | runtime/src/rc.rs:946-960 | every word of the records above a depth is released once |
| Unwind.Runtime.CloseResourcesTo | runtime/src/rc.rs:993-1007 | the resources above a depth are closed once each, newest first |
| Unwind.Runtime.ResourcePop | runtime/src/rc.rs:978-985 | the newest entry of a slot goes, all others stay in order |
| Unwind.Runtime.HoldRaised | runtime/src/lib.rs:3182-3185 | the caught exception is registered, so that a raise in the handler gives it back |
| Unwind.Runtime.TryEnter | runtime/src/lib.rs:3074-3093 | a frame records both depths, unless 64 are active |
| Unwind.OwnLast | runtime/src/rc.rs:978-985 | closing a function's own resource, in any order, never takes one of a caller |
| Unwind.NewestAt | runtime/src/rc.rs:991-1007 | closing order is the reverse of opening order |
| Unwind.UptoOnce | runtime/src/lib.rs:3134-3154 | what was given out is counted once each |
| Allocator.Allocator.Alloc | runtime/src/alloc_cache.rs:142-161 | a small block is aligned, large enough for its layout, was in nobody's hands, and overlaps no other; every other block stays where it was |
| Allocator.Allocator.Dealloc | runtime/src/alloc_cache.rs:164-186 | a freed block is first in its thread's list, which pours its front into the shared list when too long, or goes to the shared list itself |
| Allocator.Allocator.Refill | runtime/src/alloc_cache.rs:107-136 | an empty list gets a batch of the shared one, or a whole slab, of the exact length stated; no block changes hands |
| Allocator.Allocator.FillFrom | runtime/src/alloc_cache.rs:125-135 | the blocks of a slab are inside it, disjoint, aligned and all linked |
| Allocator.Allocator.MoveFront | runtime/src/alloc_cache.rs:85-95 | walking to a block and relinking moves exactly the front of one list before another, counts included |
| Allocator.Allocator.Give | runtime/src/alloc_cache.rs:81-96 | pouring moves blocks from a thread's list to the shared one and changes nobody's hands |
| Allocator.Allocator.EndThread | runtime/src/alloc_cache.rs:46-56 | all lists of an ending thread go to the shared lists, in order |
| Allocator.Allocator.WriteInto | runtime/src/alloc_cache.rs:72-78 | what a caller writes into its block changes no list |
| Allocator.RefillExceeds | runtime/src/alloc_cache.rs:107-136 | a refilled list exceeds `LOCAL_MAX` exactly when it comes from a new slab and the class is not the largest |
| Allocator.OnePlace | runtime/src/alloc_cache.rs:31-38 | a carved block is in a caller's hands, or once in exactly one list, of its class |
| Allocator.CountIsLength | runtime/src/alloc_cache.rs:24-36 | a list's count is the number of links to its end |
| Allocator.LinkedSplice | runtime/src/alloc_cache.rs:85-95 | one changed link joins a cut front to another list |
| Allocator.ClassOf | runtime/src/alloc_cache.rs:63-66 | a class is the smallest that holds the layout, and exists exactly for small layouts |
| Civil.DateRoundTrip | runtime/src/civil.rs:11-33 | every valid date is found back from its count of days |
| Civil.DaysRoundTrip | runtime/src/civil.rs:11-33 | every count of days, negative too, is that of a valid date |
| Civil.NextDayCounts | runtime/src/civil.rs:11-60 | one more day is the next date by the lengths of the months, and day 0 is 1970-01-01 |
| Civil.TimestampRoundTrip | runtime/src/civil.rs:36-45 | splitting and joining timestamps are inverse, negative ones too |
| Civil.TimeAgrees | runtime/src/time.rs:31-35 | the time of day taken without a date is right exactly for timestamps since 1970 and for midnights; for one second before 1970 it has a negative second |
| Civil.YearOfDay | runtime/src/civil.rs:24-27 | the corrections of the day count give the year of the era exactly |
| Raster.Image.Line | runtime_image/src/raster.rs:74-87 | it ends for all endpoints; as many pixels as the longer side has steps, plus one, side by side, from end to end, each blended once and no other |
| Raster.LineShape | runtime_image/src/raster.rs:74-87 | all pixels differ, lie in the rectangle of the ends and within half a pixel of the straight line |
| Raster.LineEnds | runtime_image/src/raster.rs:80-82 | both coordinates reach the target in the same round, and not before |
| Raster.RoundKeeps | runtime_image/src/raster.rs:83-85 | each round makes one step on the longer side and stays near the line |
| Raster.Blend | runtime_image/src/raster.rs:9-24 | opaque replaces, transparent leaves, opacity never decreases below the source's |
| Raster.Channel | runtime_image/src/raster.rs:20-22 | a blended channel lies between the two it comes from, rounding included |
| Raster.Image.Plot | runtime_image/src/raster.rs:26-30 | one pixel is blended, and none when the point is outside |
| StrAppend.AppendWith | runtime/src/str_append.rs:88-119 | the old text followed by the new one exactly when their length fits 48 bits, and a length cut down to 48 bits otherwise; in place exactly under the stated conditions, else a new string, the old one untouched and one reference less; block size always as the word says |
| StrAppend.Append | runtime/src/str_append.rs:59-69 | the same for two strings, also for a string appended to itself |
| StrAppend.AppendAll | runtime/src/str_append.rs:88-106 | over any run of appends in place, the bytes moved stay below the first length plus one plus the last capacity |
| StrAppend.AppendTemplate | runtime/src/str_append.rs:74-82 | the text of the template's parts follows the old text, when the length fits its field, which has its low 48 bits in any case |
| StrAppend.Doubles | runtime/src/str_append.rs:97-98 | a full block at least doubles |
| StrAppend.IntLenExact | runtime/src/str_append.rs:154-156 | the length computed by logarithm is that of the decimal text |
| StrAppend.PlainLenExact | runtime/src/str_append.rs:174-179 | the length computed for a template is that of its text |
| StrAppend.WritePlain | runtime/src/str_append.rs:182-193 | the parts fill a place of that length exactly |
| StrAppend.Block.Extend | runtime/src/str_append.rs:100-104 | text, terminator, length and capacity agree after an append in place |
| StrAppend.Block.WithRoom | runtime/src/str_append.rs:40-50 | a new string has the joined text and room to grow |

## Left out

- Block addresses are not used again by values: a value is a number that no later value gets. What else the allocator does with a freed block is arbitrary.
- CycleCollector.Heap.Walk: of a freed block only the count word is arbitrary; its kind, which the walk reads as well, is taken to be the old one. What happens after a walk took a freed block for a white value is not modelled.
- CycleCollector.Heap.ReleaseChild: non-cyclic kinds are leaves, so an exception, generator or task that holds values of its own is not torn down here.
- Finalizers, generators, tasks, native handles and exceptions as children: references from such values count as references from outside.
- Whether a value may hold references is fixed when it is made (`may_hold_references`); one that may not never holds a value that can be part of a cycle.
- Counts are unbounded; the 32-bit count field of the word is not modelled.
- `collect_due`'s wait for a running collection when the list of roots is four times too long: back-pressure only.
- Interference.Decide: moves of a reference that touch no count (`__array_take`, `Array_pop`, `__array_push_owned`) do not meet its hypothesis, and the moment between a count change and its mark is not told apart. That the dead part is all of the garbage is proved for a heap that does not change meanwhile.
- Freeing the dead part beside other threads: `Collect` frees on a heap that does not change meanwhile. The count of a freed block is cleared there when it is freed.
- `Safepoint` takes as given that a thread is created, and a collection started, by a counted thread, as all callers do.
- Progress of waiting threads: `resume` may spin as long as the scheduler likes.
- Memory orderings: each atomic operation and lock section is one sequentially consistent step.
- The seeded hasher of map keys is an arbitrary function of prefix, block and digit count; the two parts of its block word, which share no bit, are added instead of combined bitwise.
- Slot positions are taken modulo the size of the index, a power of two, instead of by mask.
- MapTable.Table.Insert: requires fewer than 2^32 - 1 pairs for a new key, because a slot holds the number of its pair in 32 bits; the source does not check this.
- MapTable.Perform: has the same bound, for storing a new key only.
- MapTable.Run: bounds the number of stores in a run by 2^32 - 1, for the same reason.
- MapTable.Table.Grow: takes an index of less than 2^63 slots, so that the doubled size fits a machine word.
- Identity of key strings: a lookup by the same string object takes a shortcut in the source that has the same outcome. The counts of key strings are not followed here.
- Sorting entries is a call to the standard library's stable sort; it is modelled by its result.
- Closers and finalizers that raise. A program's branches are decided in advance, so a program is any finite tree; the values behind references are tokens.
- In the allocator, the contents of blocks beyond their first word, and large blocks, which go to the system. What the system promises of memory it gives is an assumption of `Alloc` and `Refill`.
- Allocator.Allocator.EndThread: blocks freed by a thread after its lists were poured may stay in its list, as in the source.
- Years, days and timestamps are unbounded integers; overflow of 64-bit arithmetic near its ends is not modelled.
- Line clipping, filled shapes, rotation and sampling use floating point and are not part of this model.
- Templates with floats, arrays or other values that need formatting, and appending values that are not strings.
- StrAppend.AppendAll: requires the whole text to stay below 2^48 bytes, the field of the length word; `AppendWith` says what becomes of the first append that does not.
- HTTP, HTML, SDL, Tauri, JNI, databases, files, JSON and YAML, and the compiler: input and output, foreign libraries, or thin wrappers.
