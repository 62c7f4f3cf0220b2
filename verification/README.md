# A verified model of the EMS runtime

EMS (Extended Memory Semantics) keeps arrays in shared memory. Every element has a tag byte
with a full/empty state, a type and a count of readers; threads synchronize through these
tags, through a phase barrier and through shared loop counters; strings are kept in a heap
that a buddy allocator divides. This project models the parts of the runtime in which the
hard reasoning is, and proves what they promise. `dafny verify dfyconfig.toml` checks all of it.

## The parts

**The buddy allocator** (`BuddyTree`, `BuddyMarking`, `BuddyHeap`). A class over the byte array
of node states, with the loops of the source: the depth-first search, the marking of full
ancestors, coalescing, and the unmarking on the way up. Its ghost state is the set of live
nodes. Bytes below a node that is used or unused are stale, so the invariant speaks of nodes
that can be reached from the root, and says that each such byte is a function of the live nodes.
From that follow safety, completeness (the allocator fails exactly when no aligned run of the
needed size is free, and otherwise takes the lowest), and independence of history.

**Full/empty tags** (`Tags`, `TagCell`, `TagUse`, `TagCopy`, `TagCopyRuns`, `TagSafeUses`,
`TagLaws`, `TagHistory`, `TagChannel`). One element and any number of threads that run readFE, readFF,
readRW, releaseRW, writeEF, faa and cas. Every load, store and compare and swap of the tag, and
every access of the data word, is a step. The values that the primitives read and store form a
linearizable history that respects real time, and the reader count is what the outstanding holds
make it. `TagLaws` says which histories these are by counting their events, and so what each
primitive returns. What a caller is given is another matter when it is text, a string or JSON, because a
read hands out an address in the heap and the text is copied from there after the tag has been
given back. `TagCopy` proves that only readFE and readFF can give a caller something else than
was read, `TagCopyRuns` for exactly which uses of an element no run ever does, and `TagSafeUses`
says which these are in terms of the primitives and values in use. Fetch and add conserves
(`TagHistory`), and an element that is only written when empty and read when full is a one-place
channel exactly if no text is written or nothing is taken out (`TagChannel`).

**Transactions** (`Transactions`, `TxnLocks`, `TxnCompletion`, `TxnSerial`, `TxnSerializable`,
`Serializability`, `TxnValues`, `TxnOrder`). Any number of elements and transactions, at the same grain. A
transaction locks its elements in ascending order, then reads and writes what it holds, as a
function of all it has been told so far, and commits or aborts. They never deadlock and can
always be brought to their ends, and they are serializable in the order in which the last locks
were acquired; aborted and unfinished ones see only what they would see alone. `TxnValues` reads
the values off the bodies: a read is told the value written last, and in the end every element has
the value last written by a transaction that committed. What a
transaction holds does not change under it, so that it may copy a text out after the read has
returned. Elements are numbered by their place in the order in which tmStart sorts them,
whatever array they are in, and are distinct. `TxnOrder` says what becomes of other lists: an
element may be named several times only to be read, and at most 7 times; and two transactions
that use different orders can deadlock. JavaScript sorts by number and Python by text, so the
two must not share elements.

**Barrier and single regions** (`Collectives`). N threads run the same sequence of rounds; every
access of the control block is a step.

**Dynamic and guided loops** (`Loops`, `LoopSizes`, `LoopChunks`). The initialization that all threads do at
once, the claims with the unprotected chunk size, and the iterations. The barriers around the
loop are single steps that a thread can take when all have arrived; `Collectives.LeavesExactly`
is why. `LoopSizes` says how large the chunks are, and `LoopChunks` for exactly which bounds, threads and smallest chunks a loop runs
every iteration once.

**Static loops** (`StaticLoops`), **the key map** (`KeyMap`), **stack and queue** (`StackQueue`)
and **text in the heap** (`Region`) are used by one thread at a time here. `Region` has the
bytes of the heap: strcpy into a block is a loop, and that other elements' texts survive is
proved from the allocator's disjointness; when an operation finds no room is stated of the
blocks that are live before it. The values of stacks and queues are those of a region. **The
memory layout** (`Layout`) is arithmetic. `Wrapping` and `ThreadSets` are shared helpers.

In the concurrent machines, fields that only record what happened (who holds what, which
thread claimed an iteration, the order of transactions) are marked as such and do not influence
a step.

## Where the code does something else than expected

- The guard of readRW reads the new tag before it is ever set (src/ems.cc:426). The model keeps
  this: the variable starts with an arbitrary count. Safety does not depend on it;
  `TagCell.WhoGoesOn` says when it delays a reader.
- readFE and readFF return the address of a text (src/ems.cc:467-473) and give the element back
  before the caller copies it (nodejs/nodejs.cc:89-114, Python/ems.py:628-639). A writer that comes
  in between frees the block and is given the same one again (`BuddyHeap.AllocFreeAlloc`), so that
  the reader gets the new text: `TagChannel.LostAndDoubled` is a run of a channel in which "a" and
  "b" are written and "b" is read twice. `TagCopyRuns.TruthfulExactly` says for which uses callers
  are given what was read: those without a sequential history in which a text is read without a
  hold and the value is replaced later. `TagSafeUses.TruthfulUses` tells them from the primitives
  and values in use. Without readFE and readFF it is always so (`TagCopy.NoLateReads`), and so it
  is without texts (`TagCopy.NoTexts`).
- A fetch and add of JSON, or to JSON, returns with an error and leaves the element BUSY for good
  (src/rmw.cc:95-98, src/rmw.cc:290-292): `TagCell.OwnersNeverWait` says that nothing else does.
- A text is given more room than it needs. The allocation of a write, of a compare and swap and of
  a fetch and add is of one byte more than the length its caller gives, and that already counts
  the terminator in JavaScript (nodejs/nodejs.cc:65), and one more in Python (Python/ems.py:537);
  only pushes and enqueues count anew (src/primitives.cc:69). `BuddyHeap.OneByteMore` says when it
  costs: a text that fills its block exactly is given one of twice the size. `Region` has the
  length as a parameter.
- A string added to an undefined element is stored, but the element stays tagged UNDEFINED
  (src/rmw.cc:278): `TagHistory.FaaLeavesSum` and `Region.Region.FaaUndefined` give the exact
  conditions.
- A write that finds no room has already freed the old text (src/ems.cc:618-621):
  `Region.Region.Write` says exactly when the element is still sound, for the length given.
- An insert of a new string key that finds no room leaves the slot of the map BUSY
  (src/ems.cc:332-337): `KeyMap.KeyMap.Insert`.
- The lookup of an absent key gives -1 % NELEM, which is 0 in an array of one element
  (src/ems.cc:167): `KeyMap.AbsentIsTold`.
- The static schedule of JavaScript clips a count from zero against the absolute end
  (nodejs/ems.js:112-117): `StaticLoops.JsRightExactly`.
- A guided loop with a smallest chunk below one can leave iterations out (src/loops.cc:81-86). It
  does so in some run whenever it has iterations, unless there is one thread and at least two of
  them: `LoopChunks.RightExactly`.
- A stack holds one value less than the array has elements, and an operation that overflows
  leaves the pointer advanced and BUSY (src/primitives.cc:45-51, src/primitives.cc:166-172).

## Model

| member | source | states |
|---|---|---|
| BuddyHeap.NextPow2 | src/ems_alloc.cc:64-69 | a positive number is rounded to the least power of two that is not smaller |
| BuddyTree.RunsDisjoint | src/ems_alloc.cc:72-74 | the runs of blocks of two nodes, neither above the other, are disjoint |
| BuddyHeap.Heap.constructor | src/ems_alloc.cc:45-52 | a new tree represents no live block |
| BuddyHeap.Heap.MarkParent | src/ems_alloc.cc:79-89 | after a node is used, its ancestors become full exactly where both halves are covered, and the tree represents the live blocks again |
| BuddyHeap.Heap.Search | src/ems_alloc.cc:94-149 | the search stops at the first free node of the needed size in depth-first order, with all nodes above it split, or leaves the tree alone when there is none |
| BuddyHeap.Heap.Climb | src/ems_alloc.cc:131-147 | backtracking goes on to the right of the nodes already looked at, or ends when none is left |
| BuddyHeap.Heap.Alloc | src/ems_alloc.cc:94-149 | -1 exactly when no aligned run of the rounded size is wholly free, and nothing has changed; otherwise the lowest such run becomes live and its byte offset is returned |
| BuddyHeap.FreeIsRunFree | src/ems_alloc.cc:94-149 | a node has no live block in or above it exactly if all the blocks of its run are free |
| BuddyHeap.NoneFree | src/ems_alloc.cc:94-149 | if no node of a depth is free, no aligned run of that size is |
| BuddyHeap.LowestRun | src/ems_alloc.cc:94-149 | the first free node in search order has the lowest free run |
| BuddyHeap.Heap.Combine | src/ems_alloc.cc:154-166 | a freed node and its unused buddies coalesce, and exactly that block is no longer live |
| BuddyHeap.Heap.Free | src/ems_alloc.cc:171-198 | the block that starts at the offset, and no other, stops being live; an offset at which none starts fails the assertion and changes nothing |
| BuddyHeap.Heap.Size | src/ems_alloc.cc:203-228 | the size in bytes of the live block that starts at a block offset |
| BuddyHeap.LiveBlocksSafe | src/ems_alloc.cc:72-149 | live blocks are inside the heap, aligned to their size and pairwise disjoint |
| BuddyHeap.BlockFitsRequest | src/ems_alloc.cc:94-98 | a block holds the request, and is less than twice the request in blocks and the smallest such power of two |
| BuddyHeap.FullAndSplitNodes | src/ems_alloc.cc:79-89 | a full subtree has no free node, a split or full node never has two unused children, and a split node never two that are used or full |
| BuddyHeap.EmptyHeap | src/ems_alloc.cc:154-198 | with no live block only the root is reachable, and it is unused |
| BuddyHeap.AllocThenFree | src/ems_alloc.cc:94-198 | freeing right after allocating restores every reachable byte of the tree |
| BuddyHeap.FreeAll | src/ems_alloc.cc:171-198 | freeing all live blocks in any order leaves one unused root |
| TagCell.Linearizable | src/ems.cc:380-499 | in every run of the primitives on an element, what they read and store is a legal sequential history of it, in which each thread's operations appear in its own order with the values it read |
| TagUse.HistoryRespectsTime | src/ems.cc:380-669 | a primitive that is completed before another one starts comes before it in that history |
| TagLaws.LegalExactly | src/ems.cc:380-575 | a sequence of primitives with what they returned is a legal history exactly if each comes when the counts of writes, takes, holds and releases before it allow, a readRW only with less than 7 holds out, and returns the value stored last, or for a releaseRW the number of holds that are left |
| TagLaws.RunsAreLawful | src/ems.cc:380-499 | in every run the completed primitives follow these laws |
| TagLaws.ReleaseReturns | src/ems.cc:557-560 | in every run a releaseRW returns the number of readers that still have a hold |
| TagLaws.ReleaseStep | src/ems.cc:549-561 | the step that releases a hold returns the reader count it leaves in the tag, which is the number of holds out |
| TagCopy.OnlyLateTextsDiffer | nodejs/nodejs.cc:89-114 | in every run a caller is given what its primitive read, except that after a readFE or readFF of a text the text may be another |
| TagCopy.SafeIsTruthful | src/ems.cc:467-487 | if no sequential history of the primitives in use reads a text without a hold and replaces the value later, every caller is given what was read, for every interleaving |
| TagCopyRuns.TruthfulExactly | src/ems.cc:467-487 | and only then: every other use has a run in which a caller is given a text that was not read |
| TagCopy.NoLateReads | src/ems.cc:525-530 | without readFE and readFF, with readRW as the only read, a use is safe, whatever texts are written |
| TagCopy.NoTexts | src/ems.cc:451-466 | a use that brings no text into the element is safe |
| TagSafeUses.SafeExactly | src/ems.cc:467-487 | this is so exactly if no text that the primitives in use can bring into the element, by a chain of values each replacing the one before, can be read by readFE or readFF and be replaced then |
| TagSafeUses.TruthfulUses | nodejs/nodejs.cc:89-114 | callers are given what was read, for every interleaving of any number of threads, exactly under that condition on the primitives and values in use |
| TagSafeUses.ReadsAndWritesExactly | src/ems.cc:511-530 | when only reads and writes are used it says: readFE is not used, or nothing is written, or neither is the element full of a text at first nor is one written |
| BuddyHeap.OneByteMore | src/ems_alloc.cc:94-98 | asking for one byte more gives a block of the same size, or of twice the size exactly if the bytes fill a block |
| BuddyHeap.AllocFreeAlloc | src/ems_alloc.cc:94-198 | a block that is allocated and freed again is given to a request of the same size that follows at once |
| TagCell.ReadersAndWriters | src/ems.cc:532-575 | the reader count is the number of holds plus the reader inside its BUSY window and never passes 7; at most one thread owns BUSY; exclusive use excludes holds; no error exit is taken but that of a fetch and add of JSON or to JSON |
| TagCell.OwnersNeverWait | src/ems.cc:599-669 | whoever owns BUSY gets on at every step and never fails, except a fetch and add that has met JSON, exactly when its argument or the element is JSON |
| TagCell.WhoGoesOn | src/ems.cc:423-441 | a waiting thread gets the element within two steps exactly if the element is in the state it waits for, and its uninitialised variable lets it |
| TagHistory.FaaLeavesSum | src/rmw.cc:59-288 | every row of the fetch and add, of values that are not JSON, leaves the sum of its operands, exactly unless a string is added to undefined; booleans and undefined are added to a string by name, and a sum of numbers is a float exactly if one operand is, or two integers reach 2^30 |
| TagHistory.FaaConserves | src/rmw.cc:106-155 | a history of integer fetch and adds ends at the initial value plus all increments, each returned the sum at its place, and the result is still an integer exactly if no sum reached 2^30 |
| TagHistory.FaaConservation | src/rmw.cc:55-155 | the same for every interleaving of any number of threads, of what callers are given |
| TagChannel.ChannelHistory | src/ems.cc:511-523 | in a history of writeEF, readFE and readFF the k-th value taken is the k-th written, and at most one is under way |
| TagChannel.ReadFFReturns | src/ems.cc:518-523 | in such a history a readFF reads the value that is under way |
| TagChannel.ChannelRuns | src/ems.cc:208-234 | the same of the values written and read, for every interleaving |
| TagChannel.ChannelExactly | nodejs/nodejs.cc:314-333 | every reader of such a channel is given what it read, in every run, exactly if no text is written or nothing is taken out |
| TagChannel.OnePlaceChannel | src/ems.cc:511-523 | then the callers are given the k-th value written by the k-th readFE, for every interleaving: nothing is lost, duplicated or reordered |
| TagChannel.LostAndDoubled | src/ems.cc:618-645 | a run in which the texts "a" and "b" are written and the reader of both is given "b" twice |
| TxnLocks.StepKeepsLocks | nodejs/ems.js:151-202 | every step of every transaction keeps the tags in accord with who holds what |
| TxnLocks.TagsTellHolders | src/ems.cc:420-573 | in every reachable state an element that is not BUSY is EMPTY exactly while one transaction holds it for writing, under the readers lock with the number of its readers, at most 7, or FULL; and no error exit has been taken |
| TxnLocks.DeadlockFree | nodejs/ems.js:156-177 | in every reachable state with an unfinished transaction some transaction gets further by steps of its own, also when reader counts are at 7 |
| TxnLocks.HeldStays | nodejs/nodejs.cc:89-114 | what an element holds does not change while a transaction holds it, whatever the others do, so that a text it copies out then is the one it read |
| TxnCompletion.CanComplete | nodejs/ems.js:151-202 | if every body ends after finitely many actions, from every reachable state some continuation leaves all transactions done |
| TxnLocks.LastWaiterGoesOn | nodejs/ems.js:159-177 | when all unfinished transactions wait, the one that waits for the last element in the order gets it |
| TxnOrder.AloneGetsThrough | nodejs/ems.js:165-177 | for every list of locks, in whatever order: a transaction alone can get through tmStart exactly if no element occurs more than once with a write among its entries, and none is read-locked more than 7 times |
| TxnOrder.OppositeOrdersDeadlock | Python/ems.py:275-307 | two transactions that lock the same elements in opposite orders can reach a state from which neither moves |
| TxnSerial.RunFrame | nodejs/ems.js:186-202 | running alone, a transaction changes only what it locks for writing |
| TxnSerial.RunAgree | nodejs/ems.js:151-179 | running alone, what it sees and leaves depends only on what it locks |
| TxnSerial.CommitInserts | nodejs/ems.js:192-196 | a commit at its place in the order changes the serial stores behind it exactly where it writes |
| TxnSerializable.HeldContent | src/ems.cc:525-530 | a held element holds what the transaction sees in it in the serial execution |
| TxnSerializable.BothRun | nodejs/ems.js:165-177 | two transactions that hold all their locks at once do not conflict |
| Serializability.StepKeepsSerial | nodejs/ems.js:151-202 | every step keeps each transaction's view and each element's content those of the serial execution |
| Serializability.Serializable | nodejs/ems.js:151-202 | for any interleaving, when all transactions are done the elements are full and hold what running them one at a time in the order of their last locks leaves, aborted ones without effect |
| Serializability.SeesSerialStore | Python/ems.py:275-334 | at every moment a transaction with all its locks, also an unfinished or aborted one, has seen exactly what it sees running alone after those before it |
| Serializability.OrderRespectsTime | nodejs/ems.js:151-179 | one that has all its locks before another has precedes it in the order |
| TxnValues.HeldHasLastWrite | src/ems.cc:618-668 | in every reachable state an element that a running transaction holds for writing has the value it wrote there last, or the one tmStart returned, except between the two stores of a write |
| TxnValues.ReadsAreTold | src/ems.cc:525-530 | every read inside a transaction returns the value it wrote there last, or the one tmStart returned |
| TxnValues.StartIsTold | nodejs/ems.js:165-177 | what tmStart returns for an element is the value last written by the committed transactions that are before it in the order, or the one at first |
| TxnValues.EndHasLastWrite | nodejs/ems.js:186-202 | when all transactions are done every element has the value last written by the last one in the order that wrote it and committed, or the one at first |
| TxnValues.EndsAsDecided | nodejs/ems.js:186-202 | a transaction that is done has committed exactly if its body decided so after all it was told |
| Collectives.StepKeeps | src/collectives.cc:38-119 | every step keeps both barrier counters, the phase and the single counter in accord with where the threads are |
| Collectives.BarrierSafe | src/collectives.cc:93-119 | whoever is past the barrier of a round, every thread has arrived at it; the idle counter is N; the race branch is never taken |
| Collectives.LeavesExactly | src/collectives.cc:93-119 | a thread that waits at a barrier can leave it, by steps of those that wait there, exactly when every thread has arrived |
| Collectives.NoMissedFlip | src/collectives.cc:109-116 | a thread is at most one round behind, and one that is behind can always leave |
| Collectives.SomeoneMoves | src/collectives.cc:93-119 | while a thread is not at the end, some thread has a step other than spinning |
| Collectives.MovesRunOut | src/collectives.cc:93-119 | every step that is not spinning uses up one of a finite number of steps |
| Collectives.RunsOnce | nodejs/ems.js:389-396 | the body of each single region is run by exactly one thread before anybody is past its barrier |
| Collectives.FirstRuns | src/collectives.cc:38-52 | a thread that comes to a single region runs its body exactly if no other has come to it before |
| Loops.StepKeeps | src/loops.cc:38-89 | every step of every thread keeps claims, iterations and chunk sizes in accord |
| Loops.ShareShrinks | src/loops.cc:81-86 | the chunk size a thread computes is between the smallest and the first |
| Loops.ExactlyOnce | nodejs/ems.js:122-142 | for any interleaving no iteration runs twice or outside the loop, and each has run when any thread is past the loop |
| Loops.IndexBounded | src/loops.cc:75-86 | the shared index never passes max(start, end - 1 + C) + N * C, which in a loop with iterations is end - 1 + (N + 1) * C, where C is the first and largest chunk size |
| Loops.Terminates | nodejs/ems.js:122-142 | some thread can move until all are past the loop, and every move uses up some of a finite amount of work |
| LoopSizes.FirstSize | src/loops.cc:47-54 | when all threads have initialized a loop, the chunk size is one in a dynamic loop, and in a guided one half of the iterations over the number of threads, but at least the smallest chunk |
| LoopSizes.ClaimTakes | src/loops.cc:75-80 | a claim takes as many iterations from the index on as the size says, or those that are left, and nothing else |
| LoopSizes.GuidedSizes | src/loops.cc:81-86 | the size that is stored after a guided claim is half of what was left where it started, over the number of threads, but at least the smallest chunk |
| LoopSizes.DynamicSizes | src/loops.cc:53-57 | in a dynamic loop the chunk size is always one, and no thread has more than one iteration to run |
| LoopChunks.RightExactly | src/loops.cc:38-86 | a loop of n threads runs every iteration exactly once and nothing else, for every interleaving, exactly if it is dynamic, or its smallest chunk is at least one, or it has no iterations, or n is one and it has at least two |
| LoopChunks.SmallestChunkDecides | src/loops.cc:47-53 | guided loops run every iteration exactly once, whatever their bounds and threads, exactly if the smallest chunk is at least one |
| StaticLoops.RunStatic | Python/ems.py:242-249 | a thread runs its block of iterations, in order, and nothing else, and no more than its even share and one |
| StaticLoops.StaticExactlyOnce | src/ems.cc:954-962 | every iteration is in the block of exactly one thread, and nothing else is in any |
| StaticLoops.StaticEven | Python/ems.py:242-249 | the iterations are divided evenly: no thread runs more than the whole part of its share and one |
| StaticLoops.JsEven | nodejs/ems.js:110-121 | and so are those of the JavaScript schedule |
| StaticLoops.JsRightExactly | nodejs/ems.js:110-121 | the JavaScript schedule runs each iteration exactly once and no other, exactly for loops with iterations that start at zero, loops that end before they start, and loops that end where they start at zero or below |
| KeyMap.KeyMap.Lookup | src/ems.cc:86-169 | the probing loop ends at the first slot on the key's way that is unused or holds the key |
| KeyMap.KeyMap.Insert | src/ems.cc:261-374 | the key is put into, or found at, that slot, and nothing else changes; it fails, with the slot BUSY for good, exactly if the key is a new string, there is a slot for it, and no room for its text |
| KeyMap.KeyMap.Probe | src/ems.cc:276-363 | the same for the loop alone |
| KeyMap.KeyMap.KeyAt | src/ems.cc:758-801 | the key of a slot, whose lookup gives the slot's index |
| KeyMap.PutKeepsTable | src/ems.cc:261-374 | an insert keeps every key at the first stop on its way |
| KeyMap.GetFinds | src/ems.cc:120-168 | a lookup finds a key exactly where it is |
| KeyMap.OneToOne | src/ems.cc:261-374 | keys are equal exactly if their indexes are |
| KeyMap.RoundTrip | src/ems.cc:758-801 | the key of the index of a key is that key, and the index of the key of a slot is that slot |
| KeyMap.PutFails | src/ems.cc:367-370 | an insert fails, without a change, exactly when each of the min(200, NELEM) slots on the key's way holds another key |
| KeyMap.PutIsFirst | src/ems.cc:276-363 | an insert that succeeds puts the key, or finds it, at the first of the 200 slots from its hash modulo NELEM on that is unused or holds it, and changes no other |
| KeyMap.SmallTableFails | src/ems.cc:367-370 | in arrays of at most 200 elements, exactly when every slot does |
| KeyMap.LookupAgrees | src/ems.cc:86-169 | after any sequence of inserts a lookup gives the index that was returned for the key, and for other keys -1, or 0 in an array of one element |
| KeyMap.AbsentIsTold | src/ems.cc:165-168 | lookups tell absent from present keys exactly in arrays of at least two elements |
| KeyMap.IndexStays | src/ems.cc:261-374 | a key's index never changes, whatever is inserted later |
| KeyMap.IndexesDiffer | src/ems.cc:261-374 | distinct keys are given distinct indexes |
| Region.Region.Write | src/ems.cc:618-660 | the old text is freed and the new value stored, all other elements keep theirs; it fails exactly if the new value is a text and the heap, with the old text freed, has no run for one byte more than the length its caller gives; the region is then sound exactly if the element held no text |
| Region.Region.FaaString | src/rmw.cc:199-258 | the element holds the old text with the new one, or the digits, "true", "false" or "undefined", added, its old block is freed, all others keep theirs; it fails, and changes nothing, exactly if with the old text in place there is no run for the room of both, for an added string the length its caller gives |
| Region.Region.FaaToString | src/rmw.cc:137-145 | a number or boolean to which a string is added becomes a string, of its digits, "true" or "false" and the string, that owns its block; or nothing changes, exactly if its type is unknown or there is no run for the length the caller gives with the room of the prefix |
| Region.Region.FaaUndefined | src/rmw.cc:272-279 | a string added to undefined leaves a live block that no element owns, exactly if the heap has a run for four bytes more than the length its caller gives |
| Region.Region.Cas | src/rmw.cc:361-427 | the value is replaced exactly if it equals the expected one, unless it is to be replaced by a text for which there is no run, as in a write |
| Region.Region.Read | src/ems.cc:467-487 | the text at the address in the element is the one last stored in it |
| Region.Settled | src/ems.cc:637-645 | an element that is given a loose block owns it, and ownership is one to one again |
| Region.Wrote | src/ems.cc:639-645 | writing into a block that no element owns disturbs no text |
| Region.WordsAreBlocks | src/ems.h:186-197 | the data words of text elements are the addresses of the live blocks, one for one |
| StackQueue.Buffer.Push | src/primitives.cc:37-89 | a push adds the value on top as it is, of undefined the type, a text in a block of its own, and returns its index; it fails exactly when NELEM - 1 values are there, its type is unknown or there is no room for its text |
| StackQueue.Buffer.Pop | src/primitives.cc:95-151 | a pop takes the top value and frees the block of a text, or returns undefined from an empty stack |
| StackQueue.Buffer.Enqueue | src/primitives.cc:158-205 | an enqueue adds the value behind as it is, of undefined the type, in the circular buffer; it fails exactly when NELEM values are there, its type is unknown or there is no room for its text |
| StackQueue.Buffer.Dequeue | src/primitives.cc:210-268 | a dequeue takes the first value and frees the block of a text, or returns undefined from an empty queue |
| StackQueue.Buffer.RunStack | src/primitives.cc:37-151 | any sequence of pushes and pops does and returns what it does on a sequence of values, up to the first push that finds no place or no room |
| StackQueue.Buffer.RunQueue | src/primitives.cc:158-268 | any sequence of enqueues and dequeues does and returns what it does on a sequence of values, up to the first enqueue that finds no place or no room |
| StackQueue.Buffer.EmptyStackHoldsNothing | src/primitives.cc:95-151 | when the stack is empty no block of the heap is live |
| StackQueue.Buffer.EmptyQueueHoldsNothing | src/primitives.cc:210-268 | when the queue is empty no block of the heap is live |
| StackQueue.StackKeepsBelow | src/primitives.cc:37-151 | operations that never reach below a part of the stack leave it as it was |
| StackQueue.QueueKeepsOrder | src/primitives.cc:158-268 | what was taken out followed by what is there is what was put in |
| StackQueue.QueueGivesBack | src/primitives.cc:158-268 | the same of the very values that callers put in, when none is undefined |
| StackQueue.StackGivesBack | src/primitives.cc:37-151 | what was pushed is what is popped after operations that leave the stack above it as it was |
| Layout.PartsApart | src/ems.cc:862-881 | all control, data and map words, their tag bytes, the allocator's fields and the heap, or without elements the integers of the control block of all threads, are pairwise disjoint and inside the file, for every size, number of threads and choice of map |
| Layout.AllocatorFits | src/ems.cc:862-881 | the tree has a byte for every node; the heap has all its blocks, the least power of two of them with more room than was asked for, and ends the file |
| Layout.MappedIffAsked | src/ems.h:208 | an array reads as mapped exactly when a map was asked for |

## Left out

- mmap, files, locking of memory, thread pinning, processes, pipes, and the conversion of values by the language bindings: input and output.
- Timeouts that expire, nap times and unfair schedulers: a spin loop is a step that changes nothing until its condition holds.
- Floating point: numbers are reals and one value that is not a number, and the text of a number is a parameter.
- writeXF, writeXE and plain reads and writes outside a transaction: they ignore the tags of others by design, so that no claim about readers survives them.
- Errors that return while an element is BUSY for lack of memory, in the concurrent machines.
- The bytes of a character: a text has one byte for each.
- Concurrent use of the key map: a claim of a map slot is not decided by its tag alone (src/ems.cc:227, src/ems.cc:493), so the map is used by one thread at a time and its full/empty states are not modelled.
- Mapped elements in transactions: elements are known by their index.
- Critical regions, `master`, proxies and bindings: thin wrappers.
- BuddyHeap.Heap.Alloc: a request of zero bytes is excluded, because it reaches __builtin_clzll(0), which is undefined.
- BuddyHeap.Heap.Size: is stated in block offsets, because emsMem_size does not divide its argument by the block size as emsMem_free does.
- Collectives.MovesRunOut: says that moves run out, not that every thread is scheduled; fairness is not modelled.
- Loops.IndexBounded: integers are unbounded; the bound says for which loops the 32 bits of the source are enough.
- Loops.ExactlyOnce: the barriers of the loop are single steps, justified by Collectives.LeavesExactly, and the unused start field is not kept.
- KeyMap.KeyMap.Insert: whether the heap has room is a parameter; hashes are any numbers that are not negative, so the one hash value without an absolute value is excluded; keys that are NaN, signed zeros, undefined or JSON are excluded too.
- Region.Region.FaaString: the digits of a number are at most the 40 characters for which the source reserves room; JSON as an operand is not modelled here but in TagCell.
- Region.Region.Read: elements are used by one thread at a time, and the text is copied at once; TagCopy has the reads of many threads, with the copy as a step of its own.
- StackQueue.Buffer.Dequeue: operations are whole; the source reads the top twice (src/primitives.cc:221-222), which a concurrent enqueue can separate.
- StackQueue.Buffer.Pop: the malloc for the caller's copy of a text always succeeds; and an element that is not in use has no type here, so that mixing stack operations with writes of single elements is not covered.
- StackQueue.Buffer.Push: after a failure the pointer is BUSY for ever, and nothing more is said about the stack.
