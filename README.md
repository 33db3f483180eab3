# Operating-systems labs, modelled in Dafny

This project models the core of a set of operating-systems lab programs: allocators, page replacement, scheduling, synchronisation, process pipes and an exam seating planner. It also proves what those programs promise. Each component is one module in one file:

- **Alloc** (`alloc.dfy`): a single-page allocator. One 4096-byte page has a free list sorted by offset with neighbours merged. The allocation records are kept newest first.
- **Ealloc** (`ealloc.dfy`): a multi-page ("elastic") allocator. Every page has its own free list, and one record list names each record's page.
- **FreeList** (`freelist.dfy`): the sorted, coalescing free list both allocators share. It covers insertion, merging, first fit and carving.
- **Fragmentation** (`fragmentation.dfy`): the block-list memory simulator. It does first-fit allocation, freeing by id and merging of free neighbours, and reports total free memory, the largest free block and external fragmentation.
- **PageReplace** (`pagereplace.dfy`): FIFO and LRU page replacement over a reference string. It counts page faults.
- **VmSim** (`vmsim.dfy`): the bookkeeping of the virtual-memory simulator's MMU thread. It keeps the page tables, the frame owners, the LRU list and the free frames.
- **Banker** (`banker.dfy`): the Banker's safety check and the admission of a single request.
- **Scheduler** (`scheduler.dfy`): the non-preemptive FIFO scheduler. It has a READY queue, a BLOCKED list and five kinds of event.
- **PidQueue** (`pidqueue.dfy`): the circular PID queue of the round-robin signal scheduler.
- **Pipeline** (`pipeline.dfy`): the producer / squarer / consumer pipeline over two ring-buffer bounded buffers.
- **Banquet** (`banquet.dfy`): the royal banquet arbiter. It hands out forks in FIFO order, with an aging rule for philosophers who have waited too long.
- **Fcfs** (`fcfs.dfy`): the first-come first-served readers/writers queue of the library.
- **MatMul** (`matmul.dfy`): the threaded matrix product, with one worker per cell.
- **PipesCase** (`pipescase.dfy`): the case-toggling pipe pair.
- **Fib** and **CNum** (`fib.dfy`, `cnum.dfy`):
  - the shared-memory Fibonacci program and the fork-based one;
  - the `strtol` / `%ld` conversions they use.
- The exam seating planner:
  - **Cells** (`cells.dfy`): cell splitting;
  - **Grouping** (`grouping.dfy`): `defaultdict(list)`;
  - **StableSort** (`stablesort.dfy`): Python's stable sort;
  - **SeatRooms** (`seatrooms.dfy`): the room layout;
  - **SeatAlloc** (`seatalloc.dfy`): the allocation rule on values;
  - **SeatHall** (`seathall.dfy`): the rule as the program runs it, updating rooms in place;
  - **SeatRolls** (`seatrolls.dfy`): every roll is seated or recorded exactly once;
  - **SeatGroups** (`seatgroups.dfy`): the per-slot driver.
- **Wrappers** and **RingMath** (`wrappers.dfy`, `ringmath.dfy`): an option type and the modular arithmetic of the ring buffers.

The code's form is kept:

- Code that updates state in place becomes a class with `modifies` clauses. Examples are the allocators' globals, the bounded buffers, the banquet table, the banker's matrices, the scheduler, the MMU thread and the seating rooms.
- Code that updates state in a loop becomes a method whose loops carry invariants.
- Each method is proved against a value-level specification function. The properties the program promises are proved about that function.

The banquet's `request_to_eat` records wait statistics even when it returns without a grant. The model does the same (`Banquet.Table.ConsumeGrant`).

## Model

| member | source | states |
|---|---|---|
| Banquet.IdQueue.constructor | Lab05/q3_royal_banquet.c:48 | q_init leaves an empty queue over `qcap` fresh slots |
| Banquet.IdQueue.Size | Lab05/q3_royal_banquet.c:52 | q_size is the number of queued ids |
| Banquet.IdQueue.IsEmpty | Lab05/q3_royal_banquet.c:49 | q_empty holds exactly when no id is queued |
| Banquet.IdQueue.Peek | Lab05/q3_royal_banquet.c:53 | q_peek(idx) is the id at position idx from the head |
| Banquet.IdQueue.Push | Lab05/q3_royal_banquet.c:50 | the id joins the back of the queue and the head stays |
| Banquet.IdQueue.Pop | Lab05/q3_royal_banquet.c:51 | the head id comes out and the rest keep their order |
| Banquet.IdQueue.EraseIdx | Lab05/q3_royal_banquet.c:54-58 | exactly the entry at idx leaves; the entries before it stay and those after it move one place towards the head |
| Banquet.IdQueue.ShiftedDone | Lab05/q3_royal_banquet.c:56-57 | once the shift loop reaches the end, the ring holds the queue without the erased entry |
| Banquet.IdQueue.ShiftSlot | Lab05/q3_royal_banquet.c:56 | one shift step copies the next entry into position k and changes no other position of the queue |
| Banquet.ClampConfig | Lab05/q3_royal_banquet.c:187-189 | fewer than two philosophers become two and fewer than two forks become two; forks are then capped at one less than the philosophers, so there are at least two philosophers and at least one fork fewer; values already in range stay |
| Banquet.RecordWait | Lab05/q3_royal_banquet.c:136-138 | a negative wait counts as 0; the maximum becomes the larger of the old maximum and the wait, and the sum grows by the clamped wait |
| Banquet.Purge | Lab05/q3_royal_banquet.c:73-75 | the purged queue is no longer and holds only active philosophers |
| Banquet.PurgeMembers | Lab05/q3_royal_banquet.c:73-75 | the purged queue holds exactly the active philosophers of the queue |
| Banquet.PurgeDistinct | Lab05/q3_royal_banquet.c:73-75 | purging keeps the ids distinct |
| Banquet.PurgeNext | Lab05/q3_royal_banquet.c:73-75 | the scan purges one entry at a time, keeping it exactly when its philosopher is active |
| Banquet.SplitAt | Lab05/q3_royal_banquet.c:73-75 | during the scan the queue is the purged prefix followed by the entries not yet visited |
| Banquet.RemoveAt | Lab05/q3_royal_banquet.c:54-58 | removing index k keeps the entries before k and moves those after it one place forward |
| Banquet.AgedPickUnique | Lab05/q3_royal_banquet.c:73-80 | at most one queue position obeys the aging rule |
| Banquet.AgedPickExists | Lab05/q3_royal_banquet.c:73-80 | whenever some philosopher is aged, a position obeying the aging rule exists |
| Banquet.DistinctBounded | Lab05/q3_royal_banquet.c:123-126 | distinct ids below n number at most n, so the queue of 4N+8 slots never fills |
| Banquet.Table.constructor | Lab05/q3_royal_banquet.c:192-204 | main starts with F forks free, every flag and statistic zero and an empty queue of 4N+8 slots |
| Banquet.Table.QueueBounded | Lab05/q3_royal_banquet.c:123-126 | the queue never holds more than N ids, below its capacity |
| Banquet.Table.Request | Lab05/q3_royal_banquet.c:121-128 | a philosopher not yet waiting joins the queue tail with its request time; one already waiting changes neither queue nor times; either way it is then waiting |
| Banquet.Table.ConsumeGrant | Lab05/q3_royal_banquet.c:129-138 | once the wait ends the grant is cleared and the wait is recorded by RecordWait for that philosopher only, granted or not |
| Banquet.Table.Ate | Lab05/q3_royal_banquet.c:176 | the eater's meal count grows by one and no other changes |
| Banquet.Table.ReleaseForks | Lab05/q3_royal_banquet.c:141-146 | a released pair returns two forks, and free plus twice the pairs handed out stays F |
| Banquet.Table.Join | Lab05/q3_royal_banquet.c:158 | the philosopher becomes active and no one else changes |
| Banquet.Table.Leave | Lab05/q3_royal_banquet.c:164-165 | the philosopher becomes inactive and no one else changes; its queue entry stays |
| Banquet.Table.EraseId | Lab05/q3_royal_banquet.c:90-91 | the first queue entry equal to the chosen id, and only it, is erased |
| Banquet.Table.PurgeAndPick | Lab05/q3_royal_banquet.c:71-80 | the pass leaves the queue purged of inactive philosophers, and with two forks free picks the aging rule's candidate if any is aged, -1 otherwise |
| Banquet.Table.Scan | Lab05/q3_royal_banquet.c:73-80 | the loop erases inactive entries in place and keeps the best aged candidate seen |
| Banquet.Table.ScanOne | Lab05/q3_royal_banquet.c:74-79 | one iteration either erases the inactive entry at i or considers it for the pick, keeping the loop's invariant |
| Banquet.Table.Grant | Lab05/q3_royal_banquet.c:87-94 | a grant takes two forks, removes the chosen entry from the queue, clears its waiting flag and sets its granted flag |
| Banquet.Table.WaiterPass | Lab05/q3_royal_banquet.c:65-105 | a pass grants nothing exactly when fewer than two forks are free or no active philosopher is queued; otherwise it grants the aging pick, or the queue head when no one is aged, and removes it from the purged queue |
| Banquet.Table.Choose | Lab05/q3_royal_banquet.c:71-85 | the pass chooses the aging pick of the purged queue, else its head, and only when two forks are free |
| Banquet.ScanStep | Lab05/q3_royal_banquet.c:76-78 | an entry replaces the pick only if it is aged and has waited strictly longer, which keeps the aging rule |
| Fcfs.Node.constructor | Lab6/q3_fcfs_researcher.c:110-114 | a new node has its thread's type and id and is not awoken |
| Fcfs.ReaderRun | Lab6/q3_fcfs_researcher.c:84 | the run of readers at the head is the longest prefix of READER nodes |
| Fcfs.WakeNext | Lab6/q3_fcfs_researcher.c:79-95 | the new head always ends awoken and no flag is ever cleared; an already awoken head changes nothing; an un-awoken reader head wakes its whole reader run and no node after it; any other un-awoken head wakes only itself |
| Fcfs.Kinds | Lab6/q3_fcfs_researcher.c:16 | the types of the queued nodes, in queue order |
| Fcfs.Flags | Lab6/q3_fcfs_researcher.c:19 | the awoken flags of the queued nodes, in queue order |
| Fcfs.Queue.constructor | Lab6/q3_fcfs_researcher.c:24 | the queue starts empty with qhead and qtail NULL |
| Fcfs.Queue.Enqueue | Lab6/q3_fcfs_researcher.c:37-59 | the node joins the tail behind the others in their order; it is awoken exactly when the queue was empty, and no other node's flag changes |
| Fcfs.Queue.PopAndWakeNext | Lab6/q3_fcfs_researcher.c:62-98 | on an empty queue nothing changes; otherwise exactly the head leaves, qtail is NULL exactly when the queue becomes empty, and the remaining flags are those WakeNext gives |
| Fcfs.Queue.Unlink | Lab6/q3_fcfs_researcher.c:69-71 | qhead moves one node on, and both ends are NULL when the queue becomes empty |
| Fcfs.Queue.WakeHead | Lab6/q3_fcfs_researcher.c:91-94 | a WRITER or RESEARCHER head is woken on its own, as WakeNext says |
| Fcfs.Queue.WakeReaderRun | Lab6/q3_fcfs_researcher.c:82-90 | the loop wakes the reader run at the head and nothing after it, as WakeNext says |
| Fcfs.Queue.Wake | Lab6/q3_fcfs_researcher.c:85-87 | sem_post wakes the one node and leaves every other flag alone |
| MatMul.OffsetBound | Lab05/q2_matmul.c:13-15 | every element of an r x c matrix lies inside its block of r * c ints |
| MatMul.OffsetInjective | Lab05/q2_matmul.c:15 | rows laid out at i * c do not overlap: distinct elements have distinct offsets |
| MatMul.AllocMatrix | Lab05/q2_matmul.c:10-17 | alloc_matrix returns r row pointers into one fresh block of r * c ints, row i starting at offset i * c |
| MatMul.Int32 | Lab05/q2_matmul.c:28 | the cast to int keeps a 32-bit value congruent to the sum modulo 2^32, and keeps a sum that already fits |
| MatMul.IdentityLeft | Lab05/q2_matmul.c:25-28 | the worker's dot product with the identity on the left gives the matching entry of B |
| MatMul.IdentityLeftPrefix | Lab05/q2_matmul.c:27 | a partial dot product with an identity row picks up the B entry exactly once its column has been passed |
| MatMul.IdentityRight | Lab05/q2_matmul.c:25-28 | the worker's dot product with the identity on the right gives the matching entry of A |
| MatMul.IdentityRightPrefix | Lab05/q2_matmul.c:27 | a partial dot product with an identity column picks up the A entry exactly once its row has been passed |
| MatMul.Worker | Lab05/q2_matmul.c:23-31 | the worker stores the truncated dot product of row i of A and column j of B in C[i][j] and changes no other cell |
| MatMul.WrittenStep | Lab05/q2_matmul.c:28 | writing a new cell keeps every cell already written |
| MatMul.CreatedBefore | Lab05/q2_matmul.c:57-66 | when main reaches (i, j) it has started i * N + j workers, all for cells before (i, j) in row-major order |
| MatMul.CreatedDistinct | Lab05/q2_matmul.c:57-66 | main never starts two workers for the same cell |
| MatMul.CreatedCovers | Lab05/q2_matmul.c:57-66 | by (i, j) every cell of the rows above and every cell left of j has a worker |
| MatMul.OneWorkerPerCell | Lab05/q2_matmul.c:57-66 | main starts exactly M * N workers, one for each cell of C |
| MatMul.Multiply | Lab05/q2_matmul.c:57-67 | after the nested loops and the joins every cell of C holds the truncated product entry, and the workers were started in row-major order |
| MatMul.WrittenCells | Lab05/q2_matmul.c:67 | once every cell has had its worker, C is the product |
| MatMul.Sizes | Lab05/q2_matmul.c:35-36 | the sizes are accepted exactly when scanf read three numbers and all three are positive |
| Cells.StripLeft | Lab8/seating_arrangement.py:66 | the text loses exactly its leading white space |
| Cells.StripRight | Lab8/seating_arrangement.py:66 | the text loses exactly its trailing white space |
| Cells.Strip | Lab8/seating_arrangement.py:66-67 | the stripped text keeps only characters of the original and has no white space at either end |
| Cells.StripSlice | Lab8/seating_arrangement.py:66-67 | the stripped text is the slice of the original between its leading and trailing white space |
| Cells.StripFixed | Lab8/seating_arrangement.py:66 | a text with no white space at either end is its own stripped form |
| Cells.StripTwice | Lab8/seating_arrangement.py:66 | stripping twice strips nothing more |
| Cells.Split | Lab8/seating_arrangement.py:66 | split always gives at least one piece, and no piece holds the separator |
| Cells.SplitJoin | Lab8/seating_arrangement.py:66 | joining the pieces with the separator gives back the text |
| Cells.SplitNone | Lab8/seating_arrangement.py:67 | a text without the separator splits into itself alone |
| Cells.SplitSnoc | Lab8/seating_arrangement.py:66 | appending the separator and a piece adds exactly that piece |
| Cells.Clean | Lab8/seating_arrangement.py:66 | the kept items are non-blank and stripped, and hold only characters of the pieces |
| Cells.NormListItems | Lab8/seating_arrangement.py:61-67 | a missing cell gives no items; every item is non-blank and stripped |
| Cells.NormListSeparators | Lab08/seating_arrangement.py:13-19 | the text is split on the first of ";", newline and "," present, so no item holds it; with none present the result is the stripped text alone, or nothing if it is blank |
| Cells.PiecesFree | Lab8/seating_arrangement.py:64-66 | no cleaned piece holds the separator split on |
| Grouping.Find | Lab8/seating_arrangement.py:407-409 | the lookup finds the entry of the key when it is present and reports its absence otherwise |
| Grouping.GroupBySnoc | Lab8/seating_arrangement.py:407-409 | grouping one more pair appends its value under its key |
| Grouping.GroupByDistinct | Lab8/seating_arrangement.py:407-409 | the grouped dict lists no key twice |
| Grouping.GroupByItems | Lab8/seating_arrangement.py:407-409 | each key holds exactly the values paired with it, in their order |
| Grouping.FilterKey | Lab8/seating_arrangement.py:407-409 | a key that has values is listed |
| Grouping.GroupByKeys | Lab8/seating_arrangement.py:407-409 | every key that occurs is listed, and every listed key has at least one value |
| Grouping.FilterHas | Lab8/seating_arrangement.py:409 | a key that occurs has at least one value |
| StableSort.Insert | Lab8/seating_arrangement.py:109 | inserting one position adds exactly that position and no other |
| StableSort.InsertAfter | Lab8/seating_arrangement.py:109 | a position before the inserted one and before every listed one stays before all of them |
| StableSort.InsertOrdered | Lab8/seating_arrangement.py:109 | inserting a later position into an ordered listing keeps it ordered |
| StableSort.SortDesc | Lab8/seating_arrangement.py:109 | the sort lists n positions, each below n |
| StableSort.SortDescCorrect | Lab8/seating_arrangement.py:109 | the sorted order has descending keys, equal keys keep their original order, and every position appears exactly once |
| StableSort.SortDescOrdered | Lab8/seating_arrangement.py:109 | the sorted positions have descending keys, and ascending positions among equal keys |
| StableSort.SortDescPerm | Lab08/seating_arrangement.py:39 | sorting is a permutation of the positions |
| StableSort.LaterBefore | Lab8/seating_arrangement.py:109 | a position not yet listed by index i comes after the one at i |
| StableSort.Upto | Lab8/seating_arrangement.py:109 | the positions 0 to n - 1 in order |
| StableSort.OrderedDistinct | Lab8/seating_arrangement.py:109 | an ordered listing holds no position twice |
| SeatAlloc.Seat | Lab8/seating_arrangement.py:137-142 | a room's turn never hands out more rolls than are queued |
| SeatAlloc.Fill | Lab8/seating_arrangement.py:122-130 | a pass over a room list keeps every room and never hands out more rolls than are queued |
| SeatAlloc.FillAll | Lab8/seating_arrangement.py:134-144 | the all-rooms pass keeps every block and never hands out more rolls than are queued |
| SeatAlloc.SeatFacts | Lab8/seating_arrangement.py:137-142 | a room takes `min(limit, remaining, needed)` rolls from the front of the queue, or none when that is not positive; its remaining seats drop by exactly that many and stay within 0 and eff; the record names the subject, the block and as many seats as rolls |
| SeatAlloc.FillPartition | Lab8/seating_arrangement.py:122-130 | the records of a pass and the leftover rolls, in order, are exactly the queue |
| SeatAlloc.FillRecords | Lab8/seating_arrangement.py:125-128 | every record of a pass is non-empty, belongs to the subject, has as many seats as rolls and, in the single-block pass, names the chosen block |
| SeatAlloc.FillTook | Lab8/seating_arrangement.py:122-128 | in a pass every room takes at most one turn, within its offer |
| SeatAlloc.FillOk | Lab8/seating_arrangement.py:126 | remaining seats never go negative nor above eff |
| SeatAlloc.FillRem | Lab8/seating_arrangement.py:125-126 | the seats that leave the rooms are exactly the rolls handed out |
| SeatAlloc.FreeSumNonNeg | Lab8/seating_arrangement.py:120 | the free seats of sound rooms are between 0 and their remaining seats |
| SeatAlloc.FillCount | Lab8/seating_arrangement.py:120-130 | a pass places exactly the smaller of the free seats and the rolls queued |
| SeatAlloc.FillNothing | Lab8/seating_arrangement.py:123-124 | with nothing to place a pass changes nothing |
| SeatAlloc.FillAllPartition | Lab8/seating_arrangement.py:134-144 | the all-rooms records and the leftover, in order, are exactly the queue |
| SeatAlloc.FillAllRecords | Lab8/seating_arrangement.py:141-142 | every all-rooms record is non-empty, belongs to the subject and has as many seats as rolls |
| SeatAlloc.FillAllTook | Lab8/seating_arrangement.py:135-140 | in the all-rooms pass every room of every block takes at most one turn, within its offer |
| SeatAlloc.FillAllOk | Lab8/seating_arrangement.py:140 | the all-rooms pass keeps remaining seats within 0 and eff |
| SeatAlloc.FillAllRem | Lab8/seating_arrangement.py:139-140 | the seats the all-rooms pass takes are the rolls it places |
| SeatAlloc.FillAllCount | Lab8/seating_arrangement.py:134-144 | the all-rooms pass places exactly the smaller of all free seats and the rolls left |
| SeatAlloc.TotalFreeNonNeg | Lab8/seating_arrangement.py:120 | the free seats of sound blocks are never negative |
| SeatAlloc.FirstFit | Lab8/seating_arrangement.py:118-121 | the scan stops at the first block in the order that can take the whole subject, and reports none when no block can |
| SeatAlloc.Choose | Lab8/seating_arrangement.py:115-121 | the chosen block, if any, is one of the blocks |
| SeatAlloc.ChooseNone | Lab8/seating_arrangement.py:118-121 | no block is chosen exactly when no block can take the whole subject |
| SeatAlloc.ChooseBest | Lab8/seating_arrangement.py:115-121 | the chosen block can take the whole subject and has the most remaining seats of all that can, the earliest on a tie |
| SeatAlloc.FirstFitSame | Lab08/seating_arrangement.py:43-44 | when the fit tests with and without the skip agree on every block, they choose the same block |
| SeatAlloc.Single | Lab8/seating_arrangement.py:118-131 | the single-block attempt keeps the list of blocks |
| SeatAlloc.SingleRecords | Lab8/seating_arrangement.py:118-131 | the single-block records and the leftover, in order, are the subject's rolls, and each record belongs to the subject and counts its rolls |
| SeatAlloc.SingleTook | Lab8/seating_arrangement.py:122-128 | in the single-block attempt each room takes at most one turn |
| SeatAlloc.SingleRem | Lab8/seating_arrangement.py:122-126 | the single-block attempt keeps blocks sound, and the seats it takes are the rolls it places |
| SeatAlloc.SingleWhole | Lab8/seating_arrangement.py:118-134 | a chosen block takes the whole subject, so the all-rooms pass is skipped; with none chosen nothing changes |
| SeatAlloc.AllocPartition | Lab8/seating_arrangement.py:111-148 | a subject's records, UNALLOCATED one included, partition its rolls in their original order |
| SeatAlloc.AllocRecords | Lab8/seating_arrangement.py:146-147 | every record counts its rolls and belongs to the subject, and any leftover is one UNALLOCATED record at the end |
| SeatAlloc.AllocRooms | Lab8/seating_arrangement.py:111-148 | per subject every room takes at most one turn, blocks stay sound, and the seats taken are the rolls placed |
| SeatAlloc.AllocSingle | Lab8/seating_arrangement.py:118-144 | with a chosen block every record is in it and no other block changes; otherwise the all-rooms pass places the smaller of the free seats and the rolls |
| SeatAlloc.AllocSkipSame | Lab08/seating_arrangement.py:43-54 | on sound blocks skipping blocks without remaining seats changes nothing, so the two versions of allocate agree per subject |
| SeatAlloc.SingleNothing | Lab8/seating_arrangement.py:118-131 | a subject without rolls changes nothing in the single-block attempt |
| SeatAlloc.SortedSubjects | Lab8/seating_arrangement.py:109 | subjects are taken by descending roll count, every subject among them |
| SeatAlloc.SortedStable | Lab8/seating_arrangement.py:109 | equal roll counts keep their original order and every subject is taken exactly once |
| SeatAlloc.AllocAllRolls | Lab8/seating_arrangement.py:105-149 | the records of all subjects partition their rolls in processing order, each with as many seats as rolls |
| SeatAlloc.AllocAllRooms | Lab8/seating_arrangement.py:105-149 | any run of subjects keeps the blocks sound, keeps the rooms' names, capacities and earlier assignments, and only lowers remaining seats |
| SeatAlloc.AllocAllSkipSame | Lab08/seating_arrangement.py:36-69 | on sound blocks the two versions of allocate give the same result |
| SeatHall.Hall.constructor | Lab8/seating_arrangement.py:413 | each exam slot starts from its own copy of the room template |
| SeatHall.Hall.SeatRoom | Lab8/seating_arrangement.py:137-142 | one room's turn updates that room, and only that room, as Seat says, and returns Seat's record and leftover queue |
| SeatHall.Hall.FillBlock | Lab8/seating_arrangement.py:122-130 | the loop over the chosen block's rooms leaves that block, and only it, as Fill says, and returns Fill's records and leftover |
| SeatHall.Hall.FillEvery | Lab8/seating_arrangement.py:134-144 | the loop over all rooms leaves the blocks as FillAll says and returns its records and leftover |
| SeatHall.Hall.FindBlock | Lab8/seating_arrangement.py:115-121 | the search returns exactly Choose's block: the first in descending remaining-seat order that can take the whole subject |
| SeatHall.Hall.AllocateSubject | Lab8/seating_arrangement.py:111-148 | one subject's turn leaves the rooms and returns the records that AllocOne describes |
| SeatHall.Hall.AllocateSubjects | Lab8/seating_arrangement.py:105-149 | allocate leaves the rooms and returns the records that Allocate describes: the subjects by descending roll count, each against what the previous ones left |
| SeatRooms.Digits | Lab8/seating_arrangement.py:97 | the digits kept from a room name are all digits |
| SeatRooms.SortKeyNoDigits | Lab8/seating_arrangement.py:97 | a room name without digits sorts as 0 |
| SeatRooms.SortKeyIgnores | Lab8/seating_arrangement.py:97 | a character that is not a digit does not change the key |
| SeatRooms.SortKeyDigit | Lab8/seating_arrangement.py:97 | each further digit shifts the key one decimal place and adds its value |
| SeatRooms.SortRoomsFacts | Lab8/seating_arrangement.py:101-102 | the rooms of a block end ordered by ascending key, and are the same rooms rearranged |
| SeatRooms.SortRoomsStable | Lab08/seating_arrangement.py:32-33 | the room sort is stable and lists every room exactly once |
| SeatRooms.LayoutFresh | Lab8/seating_arrangement.py:82-91 | every room starts with eff = max(0, capacity - buffer), all of it remaining, nothing assigned, in the block that holds it |
| SeatRooms.LayoutOk | Lab8/seating_arrangement.py:82-88 | a fresh layout has remaining seats between 0 and eff in every room |
| SeatRooms.ItemsFresh | Lab8/seating_arrangement.py:82-91 | every room a usable row appends is fresh and belongs to its block |
| SeatRooms.EntryFresh | Lab8/seating_arrangement.py:82-91 | the room built from one usable row is fresh |
| SeatRooms.FilterFresh | Lab8/seating_arrangement.py:91 | every room listed under a block is fresh and belongs to that block |
| SeatRooms.LayoutBlocks | Lab8/seating_arrangement.py:70-103 | no block is listed twice, every usable row's block is listed, and each block holds exactly its rows' rooms, sorted |
| SeatRooms.ItemOf | Lab8/seating_arrangement.py:73-91 | every usable row appends its room |
| SeatRooms.ItemsLast | Lab8/seating_arrangement.py:91 | a usable last row appends the last room |
| SeatRooms.BuildRooms | Lab8/seating_arrangement.py:70-103 | build_rooms_generic returns exactly the layout and the total of the usable rows' effective capacities |
| SeatRooms.CollectRows | Lab8/seating_arrangement.py:73-92 | the row loop fills the dict with each usable row's room under its block and sums their effective capacities |
| SeatRooms.AddRow | Lab8/seating_arrangement.py:74-92 | a row whose capacity does not convert changes nothing; otherwise its room is appended to its block and its effective capacity max(0, cap - buffer) is added |
| SeatRooms.SortEach | Lab8/seating_arrangement.py:101-102 | each block's list of rooms is sorted in place and the blocks keep their order |
| SeatRooms.RowStep | Lab08/seating_arrangement.py:24-31 | one more row either leaves the dict and the total alone or appends its room to its block and adds its effective capacity |
| SeatRooms.ItemsStep | Lab08/seating_arrangement.py:24-31 | one more row adds its own append and effective capacity, if any, after those of the earlier rows |
| SeatGroups.KeyedFilter | Lab8/seating_arrangement.py:407-409 | the values grouped under (date, slot) are the subjects of that date and slot, in schedule order |
| SeatGroups.SlotsExact | Lab8/seating_arrangement.py:407-409 | every (date, slot) is listed once and holds exactly its subjects, in schedule order, and at least one; every row's slot is listed |
| SeatGroups.GroupRows | Lab8/seating_arrangement.py:407-409 | the grouping loop builds exactly the grouped schedule |
| SeatGroups.RunSlots | Lab8/seating_arrangement.py:411-415 | main allocates every slot, in the order slots first occur, against the template itself, so no slot sees seats another slot took |
| SeatGroups.RunSlot | Lab08/seating_arrangement.py:118-119 | one slot's records are those of allocating its subjects against a fresh copy of the template |
| SeatGroups.SlotOutcome | Lab8/seating_arrangement.py:411-415 | within every slot each subject's rolls are cut into records in order with matching seat counts, and no room ends with more remaining seats than the template gave it |
| SeatRolls.RollsAtConcat | Lab8/seating_arrangement.py:109 | the rolls of two lists of positions are those of the first then those of the second |
| SeatRolls.RollsAtPerm | Lab8/seating_arrangement.py:109 | rearranging the subjects rearranges their rolls only |
| SeatRolls.RollsAtUpto | Lab8/seating_arrangement.py:109 | the positions in order give the rolls of the subjects in order |
| SeatRolls.RollsOfPicked | Lab8/seating_arrangement.py:109 | a list picked by positions holds the rolls of those positions |
| SeatRolls.SortedRolls | Lab8/seating_arrangement.py:109 | the sorted subjects hold the same rolls, each as often |
| SeatRolls.AllocateRolls | Lab8/seating_arrangement.py:105-149 | every roll of every subject lands in exactly one record, seated or UNALLOCATED, as often as the subjects list it, and every record counts its rolls |
| FreeList.InsertBlock | Lab9/Task1/alloc.c:38-49 | the insertion loop returns the list with the block placed after every block of smaller offset (Insert) |
| FreeList.InsertMembers | Lab9/Task1/alloc.c:38-49 | the insertion adds the new block and keeps every other block, in order |
| FreeList.InsertOrdered | Lab9/Task1/alloc.c:38-49 | inserting a non-empty block disjoint from a sorted, non-overlapping list keeps it sorted and non-overlapping |
| FreeList.InsertSum | Lab9/Task1/alloc.c:38-49 | the insertion adds exactly the new block's bytes to the free total |
| FreeList.Coalesce | Lab9/Task1/alloc.c:51-62 | the coalescing loop returns CoalesceF of its input: each block absorbs every block that starts where it ends |
| FreeList.CoalesceSum | Lab9/Task1/alloc.c:51-62 | coalescing neither loses nor gains a byte |
| FreeList.CoalesceCoalesced | Lab9/Task1/alloc.c:51-62 | coalescing a sorted list yields a sorted list with a gap between every two blocks |
| FreeList.CoalesceIdle | Lab9/Task1/alloc.c:51-62 | coalescing a list that is already coalesced leaves it unchanged |
| FreeList.CoalesceKeeps | Lab9/Task1/alloc.c:51-62 | merged blocks stay in the page and stay disjoint from any block disjoint from the input |
| FreeList.AddFree | Lab9/Task1/alloc.c:37-63 | add_free_block returns the coalesced list with the block inserted (CoalesceF(Insert(l, b))) |
| FreeList.AddFreeProps | Lab9/Task1/alloc.c:37-63 | returning a disjoint block to a coalesced free list keeps it coalesced and in the page, adds exactly its bytes, and keeps other disjoint blocks apart |
| FreeList.FitIndex | Lab9/Task1/alloc.c:153-155 | first fit: the index of the first block that holds `size` bytes, every earlier block being too small; None exactly when no block is large enough |
| FreeList.FirstFit | Lab9/Task1/alloc.c:153-183 | the search loop finds a block exactly when FitIndex does, and finds the same index |
| FreeList.Carve | Lab9/Task1/alloc.c:157-165 | an exact fit drops the block; a larger block keeps its place, starts `size` bytes later and is `size` bytes smaller; the free total falls by `size` |
| FreeList.CarveCoalesced | Lab9/Task1/alloc.c:157-165 | carving keeps the free list coalesced and in the page |
| FreeList.CarveKeeps | Lab9/Task1/alloc.c:153-179 | allocating the front of free block `i` keeps the page picture: free and allocated ranges tile the page without overlap |
| FreeList.ReturnKeeps | Lab9/Task1/alloc.c:188-205 | freeing allocated range `j` keeps the page picture |
| FreeList.RemoveAt | Lab9/Task1/alloc.c:200-202 | unlinking a record: the element goes and every other element keeps its order |
| FreeList.FreshPage | Lab9/Task1/alloc.c:100-111 | a page with one free block [0, 4096) and no allocation satisfies the page picture |
| Alloc.FindRecord | Lab9/Task1/alloc.c:72-84 | the first record, newest first, at the given offset; None exactly when no record has it |
| Alloc.FindAllocNode | Lab9/Task1/alloc.c:72-84 | the loop of find_alloc_node returns FindRecord |
| Alloc.InitSpec | Lab9/Task1/alloc.c:88-113 | a second init changes nothing and returns 0; a failing mmap returns -1 and changes nothing; otherwise the whole page is one free block and there are no records |
| Alloc.CleanupSpec | Lab9/Task1/alloc.c:115-140 | cleanup drops both lists and the page; it returns -1 only when the page was mapped and munmap fails |
| Alloc.AllocSpec | Lab9/Task1/alloc.c:142-186 | NULL exactly when unmapped, `size` not positive, not a multiple of 8, or nothing fits, with no change; otherwise the first fitting block gives its front to a new newest record |
| Alloc.DeallocSpec | Lab9/Task1/alloc.c:188-206 | NULL, out-of-page and unknown pointers change nothing; otherwise the first matching record goes and its range returns through add_free_block |
| Alloc.InitKeepsTiled | Lab9/Task1/alloc.c:88-113 | init keeps the page tiled by free and allocated ranges |
| Alloc.AllocKeepsTiled | Lab9/Task1/alloc.c:142-186 | alloc_mem keeps the page tiled |
| Alloc.DeallocKeepsTiled | Lab9/Task1/alloc.c:188-206 | dealloc_mem keeps the page tiled |
| Alloc.Allocator.constructor | Lab9/Task1/alloc.c:32-34 | the globals start unmapped with empty lists, which is tiled |
| Alloc.Allocator.Init | Lab9/Task1/alloc.c:88-113 | init_alloc's new globals and result are InitSpec's, and the page stays tiled |
| Alloc.Allocator.Cleanup | Lab9/Task1/alloc.c:115-140 | cleanup_alloc's new globals and result are CleanupSpec's |
| Alloc.Allocator.AllocMem | Lab9/Task1/alloc.c:142-186 | alloc_mem's new globals and pointer are AllocSpec's, and the page stays tiled |
| Alloc.Allocator.DeallocMem | Lab9/Task1/alloc.c:188-206 | dealloc_mem's new globals are DeallocSpec's, and the page stays tiled |
| Alloc.TestAllocScenario | Lab9/Task1/test_alloc.c:6-41 | 64, 128 and 256 bytes come at offsets 0, 64 and 192; after freeing the 128-byte chunk, 64 bytes come at offset 64; freeing all four chunks leaves the whole page as one free block |
| Alloc.AllocFront | Lab9/Task1/alloc.c:153-179 | an allocation that the first free block holds with room to spare comes from that block's front |
| Alloc.FreeC | Lab9/Task1/test_alloc.c:32 | freeing the 256-byte chunk joins it with free neighbours on both sides |
| Ealloc.PageAllocs | Lab9/Task2/ealloc.c:25-30 | the ranges allocated in one page, newest first, at most as many as all records |
| Ealloc.PageIndex | Lab9/Task2/ealloc.c:175 | the position of the page with a given address; None exactly when no page has it |
| Ealloc.PageFit | Lab9/Task2/ealloc.c:104-139 | the first page, in list order, with a fitting block, and its first fitting block; earlier pages have none; None exactly when no page fits |
| Ealloc.FindRec | Lab9/Task2/ealloc.c:84-96 | the first record, newest first, whose pointer matches; None exactly when none does |
| Ealloc.ResetSpec | Lab9/Task2/ealloc.c:36-41 | einit_alloc and ecleanup_alloc forget every page and record, set the page count to 0 and return 0 |
| Ealloc.Carved | Lab9/Task2/ealloc.c:110-133 | a fitting block gives its first `size` bytes to a new newest record; other pages are unchanged and the carved page loses exactly `size` free bytes |
| Ealloc.WithNewPage | Lab9/Task2/ealloc.c:64-82 | a new page with the whole page free goes to the front, with a fresh address, and the page count grows by one |
| Ealloc.EallocSpec | Lab9/Task2/ealloc.c:98-168 | NULL exactly when the size is bad, or no page fits and no page can be created, with no change; otherwise the first fitting page's block or the front of a new page |
| Ealloc.Returned | Lab9/Task2/ealloc.c:175-183 | the record goes and its range returns to its page's free list, which is merged again; other pages are unchanged |
| Ealloc.EdeallocSpec | Lab9/Task2/ealloc.c:170-184 | NULL and unknown pointers change nothing; otherwise the first matching record returns to its own page |
| Ealloc.PageAllocsRemove | Lab9/Task2/ealloc.c:178-181 | dropping record `j` drops exactly its range from its own page's records |
| Ealloc.PageAllocsRemoveOther | Lab9/Task2/ealloc.c:178-181 | dropping record `j` leaves every other page's records unchanged |
| Ealloc.ResetKeeps | Lab9/Task2/ealloc.c:36-41 | a reset state is consistent |
| Ealloc.CarvedKeeps | Lab9/Task2/ealloc.c:110-133 | carving keeps every page tiled and every record on a listed page |
| Ealloc.NewPageKeeps | Lab9/Task2/ealloc.c:64-82 | adding a page below MAX_PAGES keeps the state consistent, the fresh page having no records |
| Ealloc.ReturnedKeeps | Lab9/Task2/ealloc.c:170-184 | returning a record's range to its own page keeps the state consistent |
| Ealloc.EallocKeeps | Lab9/Task2/ealloc.c:98-168 | ealloc_mem keeps the state consistent: at most 16 pages, distinct addresses, every page tiled by its free list and its records |
| Ealloc.EdeallocKeeps | Lab9/Task2/ealloc.c:170-184 | edealloc_mem keeps the state consistent |
| Ealloc.NewPageFront | Lab9/Task2/ealloc.c:141-167 | when no page fits, a successful ealloc_mem maps a new page, returns its offset 0 and leaves the rest of that page free |
| Ealloc.Heap.constructor | Lab9/Task2/ealloc.c:32-34 | the globals start with no page and no record, which is consistent |
| Ealloc.Heap.Einit | Lab9/Task2/ealloc.c:36-41 | einit_alloc's new globals and result are ResetSpec's |
| Ealloc.Heap.Ecleanup | Lab9/Task2/ealloc.c:186-212 | ecleanup_alloc's new globals and result are ResetSpec's; the pages stay mapped |
| Ealloc.Heap.SearchPages | Lab9/Task2/ealloc.c:104-139 | the nested search loops find a block exactly when PageFit does, at the same page and block |
| Ealloc.Heap.CreateNewPage | Lab9/Task2/ealloc.c:64-82 | refuses at MAX_PAGES or when mmap fails and changes nothing; otherwise the state becomes WithNewPage |
| Ealloc.Heap.EallocMem | Lab9/Task2/ealloc.c:98-168 | ealloc_mem's new globals and pointer are EallocSpec's, and the state stays consistent |
| Ealloc.Heap.TakeFront | Lab9/Task2/ealloc.c:110-133 | the first `size` bytes of block `i` of page `pi` become the newest record (Carved) |
| Ealloc.Heap.FindAllocRec | Lab9/Task2/ealloc.c:84-96 | the loop of find_allocrec returns FindRec |
| Ealloc.Heap.EdeallocMem | Lab9/Task2/ealloc.c:170-184 | edealloc_mem's new globals are EdeallocSpec's, and the state stays consistent |
| Ealloc.Heap.GiveBack | Lab9/Task2/ealloc.c:175-183 | unlinking record `j` and returning its range to page `pi` gives Returned |
| EallocScenario.TestEallocScenario | Lab9/Task2/test_ealloc.c:5-28 | 256, 512 and 1024 bytes come from one page at offsets 0, 256 and 768; after b is freed, the 256-byte request d gets b's address; freeing a, c and d leaves the page one free block, and ecleanup_alloc forgets every page and record |
| Fragmentation.MaxFree | Lab10/fragmentation.c:96-104 | the largest free block: at least every free block's size, equal to one of them or 0, never negative |
| Fragmentation.ExternalFrag | Lab10/fragmentation.c:157-159 | external fragmentation lies between 0 and the free total when no size is negative |
| Fragmentation.TilesSize | Lab10/fragmentation.c:115 | blocks lying back to back over [from, to) have sizes adding up to to - from |
| Fragmentation.LargestAtMostTotal | Lab10/fragmentation.c:157-159 | the largest free block holds no more than all free blocks together |
| Fragmentation.MergeF | Lab10/fragmentation.c:35-47 | merge_free: at most as many blocks, the same first start and flag, and an allocated head untouched |
| Fragmentation.MergeNoTwoFree | Lab10/fragmentation.c:35-47 | after merge_free no two neighbouring blocks are both free |
| Fragmentation.MergeIdle | Lab10/fragmentation.c:35-47 | merge_free leaves a list without two free neighbours as it is |
| Fragmentation.MergeTiles | Lab10/fragmentation.c:35-47 | merging keeps the blocks back to back over the same range |
| Fragmentation.MergeKeeps | Lab10/fragmentation.c:35-47 | merging changes no allocated block and loses no free byte |
| Fragmentation.MergeNonNeg | Lab10/fragmentation.c:35-47 | merging keeps every size non-negative |
| Fragmentation.FitFree | Lab10/fragmentation.c:50-52 | the first free block of at least `size` bytes, every earlier block being allocated or too small; None exactly when there is none |
| Fragmentation.AllocF | Lab10/fragmentation.c:49-71 | allocate_first_fit returns 1 exactly when a free block fits, and 0 with the list unchanged otherwise |
| Fragmentation.PieceCounts | Lab10/fragmentation.c:53-65 | the chosen block becomes one allocated block of `size` bytes at its start plus the free remainder, covering exactly its bytes |
| Fragmentation.AllocTiles | Lab10/fragmentation.c:49-71 | the allocation keeps the blocks back to back over the same range |
| Fragmentation.AllocKeeps | Lab10/fragmentation.c:49-71 | a successful allocation adds exactly one allocated block, of `size` bytes at the chosen block's start and owned by the id, and takes `size` bytes from the free ones |
| Fragmentation.AllocNonNeg | Lab10/fragmentation.c:49-71 | the allocation keeps every size non-negative when the request is |
| Fragmentation.FindAlloc | Lab10/fragmentation.c:74-76 | the first allocated block owned by the id; None exactly when there is none |
| Fragmentation.FreeF | Lab10/fragmentation.c:74-82 | the owner's first block becomes free with id -1; everything else is unchanged |
| Fragmentation.DeallocF | Lab10/fragmentation.c:73-84 | deallocate frees the owner's block and then runs merge_free |
| Fragmentation.FreeTiles | Lab10/fragmentation.c:74-82 | freeing keeps the blocks back to back over the same range |
| Fragmentation.DeallocTiles | Lab10/fragmentation.c:73-84 | deallocate keeps the blocks back to back over the same range |
| Fragmentation.DeallocUnknown | Lab10/fragmentation.c:73-84 | an unknown id changes no allocated block and no free total |
| Fragmentation.DeallocKnown | Lab10/fragmentation.c:73-84 | a known id loses exactly its first block from the allocated ones |
| Fragmentation.DeallocFrees | Lab10/fragmentation.c:73-84 | the bytes of the freed block become free |
| Fragmentation.DeallocNonNeg | Lab10/fragmentation.c:73-84 | freeing and merging keep every size non-negative |
| Fragmentation.Memory.constructor | Lab10/fragmentation.c:115 | memory starts as one free block [0, total_mem) with id -1 |
| Fragmentation.Memory.MergeFree | Lab10/fragmentation.c:35-47 | the merge loop turns the list into MergeF of the old list, and the blocks stay back to back |
| Fragmentation.Memory.AllocateFirstFit | Lab10/fragmentation.c:49-71 | the new list and the result are AllocF's, and the blocks stay back to back |
| Fragmentation.Memory.Deallocate | Lab10/fragmentation.c:73-84 | the new list is DeallocF's, and the blocks stay back to back |
| Fragmentation.Memory.TotalFree | Lab10/fragmentation.c:86-94 | the loop returns the free total FreeBytes |
| Fragmentation.Memory.LargestFree | Lab10/fragmentation.c:96-104 | the loop returns the largest free block MaxFree |
| PageReplace.PagesSnoc | Lab10/page_replace.c:19-20 | one more reference adds exactly its page to the pages referenced |
| PageReplace.FifoInit | Lab10/page_replace.c:13-17 | every frame empty, no page marked in a frame, no fault, and the invariant holds |
| PageReplace.FifoStepKeeps | Lab10/page_replace.c:19-28 | a hit changes nothing; a miss counts one fault, puts the page in frame `next` and advances `next` cyclically; the frames stay distinct, `in_frame` stays exact, and only the page or pages already held remain |
| PageReplace.FifoRun | Lab10/page_replace.c:19-28 | running the references keeps the invariant and the number of frames |
| PageReplace.FifoRunSnoc | Lab10/page_replace.c:19-28 | the state after i + 1 references is one step on from the state after i |
| PageReplace.FifoBounds | Lab10/page_replace.c:10-33 | FIFO faults at least once per distinct page and at most once per reference, and holds only pages that were referenced |
| PageReplace.SimulateFifo | Lab10/page_replace.c:10-33 | simulate_fifo on its two arrays returns FifoFaults |
| PageReplace.FifoTick | Lab10/page_replace.c:20-27 | one iteration on the arrays performs FifoStep |
| PageReplace.Find | Lab10/page_replace.c:51-52 | the first frame holding the page, or -1 exactly when none does |
| PageReplace.Oldest | Lab10/page_replace.c:69-71 | the lowest-numbered frame whose time stamp is smallest |
| PageReplace.LruInit | Lab10/page_replace.c:41-44 | every frame empty with stamp 0, no fault, tick 0, and the invariant holds |
| PageReplace.Victim | Lab10/page_replace.c:58-74 | a miss loads into the lowest empty frame, and otherwise into the oldest-stamped one |
| PageReplace.LruStepKeeps | Lab10/page_replace.c:46-75 | a hit restamps its frame with the new tick and counts no fault; a miss counts one fault and loads the page into the victim frame with the new tick; frames stay distinct |
| PageReplace.LruRun | Lab10/page_replace.c:46-76 | running the references keeps the invariant and the number of frames, the tick advancing once per reference |
| PageReplace.LruRunSnoc | Lab10/page_replace.c:46-76 | the state after i + 1 references is one step on from the state after i |
| PageReplace.LruBounds | Lab10/page_replace.c:35-81 | LRU faults at least once per distinct page and at most once per reference, and holds only pages that were referenced |
| PageReplace.FromRefsStep | Lab10/page_replace.c:46-75 | a step that loads only the referenced page keeps the frames within the pages referenced |
| PageReplace.LastUse | Lab10/page_replace.c:48 | the tick of the last reference to a page, or 0 |
| PageReplace.LruStamps | Lab10/page_replace.c:46-76 | every occupied frame's time stamp is the tick of the last reference to its page |
| PageReplace.StampStep | Lab10/page_replace.c:46-75 | one step keeps the time stamps equal to the last-use ticks |
| PageReplace.LruEvictsLeastRecent | Lab10/page_replace.c:68-73 | when every frame is occupied, the evicted page is the least recently used one |
| PageReplace.FindFrame | Lab10/page_replace.c:51-52 | the search loop returns Find |
| PageReplace.OldestFrame | Lab10/page_replace.c:69-71 | the scan returns Oldest |
| PageReplace.LruTick | Lab10/page_replace.c:47-75 | one iteration on the two arrays performs LruStep |
| PageReplace.SimulateLru | Lab10/page_replace.c:35-81 | simulate_lru on its two arrays returns LruFaults |
| PageReplace.LruSetup | Lab10/page_replace.c:38-44 | two fresh, distinct arrays holding LruInit's frames and stamps |
| VmSim.Init | Lab10/vm_sim.py:15-18 | the state before the first request (empty page tables, no owners, an empty LRU list, the frames 0..3 free and no fault) is consistent |
| VmSim.FindStamp | Lab10/vm_sim.py:74-77 | the first position of the frame in the LRU list, or the list's length when it is absent |
| VmSim.Handle | Lab10/vm_sim.py:63-84 | a DONE message changes nothing; a request is a hit when the page is mapped and a load otherwise |
| VmSim.HitKeeps | Lab10/vm_sim.py:71-79 | a hit keeps mappings, free frames and faults; the frame's entry leaves its place and comes back at the end with the newest stamp; the state stays consistent |
| VmSim.HitLru | Lab10/vm_sim.py:72-78 | the entry of an owned frame is found; removing it and appending a fresh stamp keeps the LRU list exact and its stamps increasing |
| VmSim.RemoveStamp | Lab10/vm_sim.py:74-77 | dropping one entry of a well-formed LRU list drops exactly its frame |
| VmSim.AppendStamp | Lab10/vm_sim.py:60-61 | appending a fresh stamp for a frame not yet listed keeps the LRU list exact and increasing |
| VmSim.LoadFree | Lab10/vm_sim.py:44-49 | a miss with a free frame counts one fault, maps the page to the lowest free frame and takes it off the free list; the LRU list gains the frame with the newest stamp |
| VmSim.FreePartition | Lab10/vm_sim.py:47-48 | popping the first free frame and giving it an owner keeps every frame free or owned, never both |
| VmSim.LoadEvict | Lab10/vm_sim.py:50-61 | a miss with no free frame counts one fault and evicts the frame with the oldest stamp; its previous page is unmapped and it now holds the requested page |
| VmSim.EvictKeeps | Lab10/vm_sim.py:50-61 | the eviction step on the parts of the state keeps the maps inverse and the LRU list exact |
| VmSim.EvictInverse | Lab10/vm_sim.py:53-59 | unmapping the victim's page and mapping the new page to the frame keeps page tables and owners inverse |
| VmSim.EvictLru | Lab10/vm_sim.py:51-52 | dropping the head of the LRU list and appending the frame with a fresh stamp keeps the list exact |
| VmSim.UnmapInverse | Lab10/vm_sim.py:53-55 | unmapping an owned frame and its page keeps the maps inverse |
| VmSim.InstallInverse | Lab10/vm_sim.py:58-59 | mapping an unmapped page to an unowned frame keeps the maps inverse |
| VmSim.HandleKeeps | Lab10/vm_sim.py:63-85 | every message keeps the state consistent |
| VmSim.MmuThread.constructor | Lab10/vm_sim.py:15-18 | the thread's state starts as Init |
| VmSim.MmuThread.Now | Lab10/vm_sim.py:60 | a reading of the logical clock returns its value and advances it, changing nothing else |
| VmSim.MmuThread.LoadPage | Lab10/vm_sim.py:44-61 | load_page changes the state as Load does |
| VmSim.MmuThread.HandleItem | Lab10/vm_sim.py:64-84 | one loop iteration changes the state as Handle does and keeps it consistent |
| VmSim.MmuThread.Touch | Lab10/vm_sim.py:72-78 | the page-hit branch changes the state as Hit does |
| Banker.FinishOne | Lab07/Q2.c:38-49 | finishing an unfinished process whose need the work covers extends the safe prefix: its allocation joins the work and the count grows by one |
| Banker.Stuck | Lab07/Q2.c:52-53 | when no unfinished process has its need covered, no order lets every process finish, so the state is unsafe |
| Banker.ColSumMono | Lab07/Q2.c:44-45 | with non-negative allocations, finishing more processes gives back at least as much of every resource |
| Banker.CountAll | Lab07/Q2.c:35 | `count` reaches P exactly when every process is finished |
| Banker.Grant | Lab07/Q2.c:81-85 | the tentative grant keeps the shapes of the vectors and matrices |
| Banker.GrantKeeps | Lab07/Q2.c:80-85 | a grant that fits moves the request from available to the process's allocation and out of its need, keeping both sums and every other process |
| Banker.RequestKeeps | Lab07/Q2.c:72-99 | a request is granted exactly when it is within need and available and the grant is safe; otherwise the state is unchanged; the state stays valid |
| Banker.InitialSafe | Lab07/Q2.c:10-24 | the initial state, with need = max - allocation, is valid and safe: P1, P3, P4, P0, P2 can finish in turn |
| Banker.Bank.constructor | Lab07/Q2.c:10-25 | the globals hold the lab's available, max and allocation; need starts zeroed |
| Banker.Bank.InitNeed | Lab07/Q2.c:109-111 | every need entry becomes max minus allocation |
| Banker.Bank.IsSafe | Lab07/Q2.c:28-56 | is_safe returns true only for a safe state, and returns true for every safe state with non-negative allocations |
| Banker.Bank.CopyAvailable | Lab07/Q2.c:29-32 | the work vector starts as a fresh copy of available |
| Banker.Bank.Pass | Lab07/Q2.c:36-51 | one pass over the processes keeps the safe prefix; it finds a process and raises the count, or else no unfinished process has its need covered |
| Banker.Bank.Visit | Lab07/Q2.c:38-50 | visiting one process finishes it when its need is covered and otherwise changes nothing |
| Banker.Bank.Finish | Lab07/Q2.c:43-49 | a covered process gives back its allocation, is marked finished, and no other flag changes |
| Banker.Bank.Covered | Lab07/Q2.c:40-43 | the `for j` loop decides whether the work covers every need entry of the process |
| Banker.Bank.AddAllocation | Lab07/Q2.c:44-45 | the work vector grows by exactly the process's allocation |
| Banker.Bank.RequestResources | Lab07/Q2.c:72-99 | the locked section changes the state and answers as Request does |
| Banker.Bank.Apply | Lab07/Q2.c:81-85 | the grant loop produces Grant's state |
| Banker.Bank.Rollback | Lab07/Q2.c:91-95 | the rollback loop restores the state from before the grant |
| Banker.Bank.CanAllocate | Lab07/Q2.c:72-78 | the limit check holds exactly when the request is within need and available |
| Banker.Bank.Move | Lab07/Q2.c:81-95 | the grant loop (sign 1) and the rollback loop (sign -1) move the request between available, allocation and need |
| Scheduler.Dequeue | Lab03/Q3/Q3.c:25-32 | dequeue_ready returns nothing exactly for an empty queue, which it leaves alone, and otherwise the head and the rest |
| Scheduler.EnqueueDequeue | Lab03/Q3/Q3.c:18-32 | the READY queue is FIFO: dequeuing after an enqueue yields the old head, or the new process when the queue was empty |
| Scheduler.FirstEvent | Lab03/Q3/Q3.c:42-51 | the position of the first process blocked on the event, or -1 when none is |
| Scheduler.TakeEvent | Lab03/Q3/Q3.c:41-53 | remove_blocked_by_event returns nothing and changes nothing exactly when no process waits on the event; otherwise it unlinks the first one that does, keeping the others in order |
| Scheduler.Shift | Lab03/Q3/Q3.c:79-98 | moving one process between the places keeps the set of pids and their distinctness, and changes the cycle total only by that process's difference |
| Scheduler.Append | Lab03/Q3/Q3.c:18-22 | appending a process with a fresh pid keeps the pids distinct |
| Scheduler.NewKeeps | Lab03/Q3/Q3.c:68-76 | a new process gets a pid no live process has, joins the READY tail, and adds no cycle |
| Scheduler.CpuKeeps | Lab03/Q3/Q3.c:79-88 | a cpu event with anything to run adds exactly one cycle and leaves a process running; otherwise it changes nothing |
| Scheduler.BlockKeeps | Lab03/Q3/Q3.c:91-98 | blocking moves the running process, tagged with the event, to the front of BLOCKED; with nothing running it changes nothing |
| Scheduler.UnblockKeeps | Lab03/Q3/Q3.c:101-108 | unblocking keeps the pids and cycles, and changes nothing when no process waits on the event |
| Scheduler.UnblockAt | Lab03/Q3/Q3.c:102-105 | moving the found process to the READY tail with its event cleared keeps the invariant |
| Scheduler.DoneKeeps | Lab03/Q3/Q3.c:111-117 | the finished process leaves and every other process stays; with nothing running nothing changes |
| Scheduler.StepKeeps | Lab03/Q3/Q3.c:68-117 | every event keeps the pids distinct and already handed out, and keeps events only on blocked processes unless a block uses -1 |
| Scheduler.RunKeeps | Lab03/Q3/Q3.c:119-133 | the invariants hold along any run of events |
| Scheduler.Scheduler.constructor | Lab03/Q3/Q3.c:12-15 | the globals start with nothing running, empty queues and next_pid 1 |
| Scheduler.Scheduler.EnqueueReady | Lab03/Q3/Q3.c:18-22 | the process joins the READY tail and nothing else changes |
| Scheduler.Scheduler.DequeueReady | Lab03/Q3/Q3.c:25-32 | the result and the new queue are Dequeue's; nothing else changes |
| Scheduler.Scheduler.AddBlocked | Lab03/Q3/Q3.c:35-38 | the process goes to the front of BLOCKED and nothing else changes |
| Scheduler.Scheduler.RemoveBlockedByEvent | Lab03/Q3/Q3.c:41-53 | the loop's result and new BLOCKED list are TakeEvent's; nothing else changes |
| Scheduler.Scheduler.NewProcess | Lab03/Q3/Q3.c:68-76 | newProcess changes the globals as NewStep does |
| Scheduler.Scheduler.CpuEvent | Lab03/Q3/Q3.c:79-88 | cpuEvent changes the globals as CpuStep does |
| Scheduler.Scheduler.BlockEvent | Lab03/Q3/Q3.c:91-98 | blockEvent changes the globals as BlockStep does |
| Scheduler.Scheduler.UnblockEvent | Lab03/Q3/Q3.c:101-108 | unblockEvent changes the globals as UnblockStep does |
| Scheduler.Scheduler.DoneEvent | Lab03/Q3/Q3.c:111-117 | doneEvent changes the globals as DoneStep does |
| Scheduler.Scheduler.RunMain | Lab03/Q3/Q3.c:119-135 | main's event sequence ends with nothing running, ready or blocked and next_pid 4; P1 runs its third cycle just before the last done event |
| Scheduler.Scheduler.MainOpening | Lab03/Q3/Q3.c:120-124 | P1 arrives, runs two cycles and blocks on 101; then P2 arrives |
| Scheduler.Scheduler.MainMiddle | Lab03/Q3/Q3.c:125-128 | P2 runs one cycle and is done; P3 arrives and runs one cycle |
| Scheduler.Scheduler.MainClosing | Lab03/Q3/Q3.c:129-133 | event 101 wakes P1; P3 runs its second cycle and is done; P1 runs its third cycle and is done |
| PidQueue.Q.constructor | Lab3/Q4/Q4.c:41-42 | q_init leaves an empty ring with head, tail and size at 0 |
| PidQueue.Q.IsEmpty | Lab3/Q4/Q4.c:43 | q_empty holds exactly when no PID is queued |
| PidQueue.Q.Push | Lab3/Q4/Q4.c:44 | below QMAX the PID joins the back of the queue; a push into a full queue is dropped and changes nothing |
| PidQueue.Q.Pop | Lab3/Q4/Q4.c:45 | an empty queue yields -1 and stays as it is; otherwise the oldest PID comes out and the rest keep their order |
| PidQueue.Advance | Lab3/Q4/Q4.c:45 | moving the head one slot round the ring keeps the remaining PIDs where the queue expects them |
| PipesCase.Toggle | Lab4/Q1/pipes_case.c:21-22 | a lower-case letter becomes the matching upper-case one and the reverse; every other byte stays |
| PipesCase.ToggleTwice | Lab4/Q1/pipes_case.c:21-22 | swapping case twice gives the byte back |
| PipesCase.Swapped | Lab4/Q1/pipes_case.c:20-23 | the swapped message has the same length and each byte swapped in place |
| PipesCase.SwappedTwice | Lab4/Q1/pipes_case.c:20-23 | swapping a whole message twice gives it back |
| PipesCase.Strlen | Lab4/Q1/pipes_case.c:24 | strlen stops at the first NUL, or at the end when there is none |
| PipesCase.UpToNul | Lab4/Q1/pipes_case.c:24 | the bytes strlen counts are a prefix with no NUL |
| PipesCase.StrlenStops | Lab4/Q1/pipes_case.c:19 | the terminator written after the bytes read ends the string no later than it |
| PipesCase.ToggleBuffer | Lab4/Q1/pipes_case.c:20-23 | the loop swaps exactly the first n buffer bytes and leaves the terminator and the rest alone |
| PipesCase.ReadCount | Lab4/Q1/pipes_case.c:17 | one read takes at most 1023 bytes and no more than the pipe holds |
| PipesCase.Reply | Lab4/Q1/pipes_case.c:17-25 | the child writes back at most 1023 bytes and no NUL |
| PipesCase.Child | Lab4/Q1/pipes_case.c:15-27 | the child's read, terminate, toggle and write produce exactly Reply of the message |
| PipesCase.TerminatedReply | Lab4/Q1/pipes_case.c:19-24 | a buffer holding the toggled bytes followed by a NUL yields the reply |
| PipesCase.Ascii | Lab4/Q1/pipes_case.c:31 | an ASCII text becomes the same bytes one for one |
| PipesCase.Message | Lab4/Q1/pipes_case.c:31-32 | the parent writes the argument up to its NUL, or "Hi There\n", and never a NUL |
| PipesCase.ReplySwapped | Lab4/Q1/pipes_case.c:17-24 | the reply is the toggled message cut at 1023 bytes and then at its first NUL |
| PipesCase.SwappedNul | Lab4/Q1/pipes_case.c:20-24 | toggling turns no byte into a NUL and no NUL into anything else, so it commutes with the cut at the first NUL |
| PipesCase.RoundTrip | Lab4/Q1/pipes_case.c:29-36 | a message without NUL of at most 1023 bytes is printed with every letter's case swapped and nothing else changed, and swapping the output again restores the message |
| PipesCase.UpToNulAll | Lab4/Q1/pipes_case.c:24 | a string without NUL is counted whole |
| PipesCase.DefaultOutput | Lab4/Q1/pipes_case.c:31-35 | with no argument the program prints "hI tHERE\n" |
| PipesCase.DefaultSwapped | Lab4/Q1/pipes_case.c:31 | the default message with its case swapped is "hI tHERE\n" |
| Fib.FibSeq | Lab4/Q2/fib_shm.c:34-36 | the sequence has n entries, the i-th being the i-th Fibonacci number |
| Fib.Tokens | Lab4/Q2/fib_shm.c:44 | one printed decimal token per value |
| Fib.PrintedSplit | Lab4/Q2/fib_shm.c:42-45 | splitting the printed values on the spaces gives back exactly one token per value |
| Fib.TokensSnoc | Lab4/Q2/fib_shm.c:42-45 | the tokens of a longer list are those of the shorter list then the token of the new value |
| Fib.ReadBack | Lab4/Q2/fib_shm.c:42-46 | nothing is printed exactly when n is 0; otherwise one line ending in its only newline holds one token per value, and strtol reads each token back completely as its value |
| Fib.PrintedLines | Lab4/Q2/fib_shm.c:42-45 | the values print without a newline until the final newline |
| Fib.ShmArg | Lab4/Q2/fib_shm.c:19-20 | fib_shm accepts an argument exactly when strtol reads all of it as a number from 0 to MAX_SEQUENCE |
| Fib.ForkArg | Lab04/Q2/fib_fork.c:9-10 | fib_fork accepts an argument exactly when strtol reads all of it as a non-negative number |
| Fib.FillSequence | Lab4/Q2/fib_shm.c:34-36 | the child fills the first n slots of the shared array with the first n Fibonacci numbers and leaves the rest alone |
| Fib.FibUpToSeq | Lab4/Q2/fib_shm.c:36 | a prefix each of whose entries is the Fibonacci number of its position is the Fibonacci sequence |
| Fib.PrintSequence | Lab4/Q2/fib_shm.c:42-46 | the parent prints the first sequence_size values of the array, one space between two values, then a newline when n > 0 |
| Fib.ForkSequence | Lab04/Q2/fib_fork.c:16-22 | the child's two rolling variables print the first n Fibonacci numbers, with one space between two of them and then a newline when n > 0 |
| CNum.SpaceRun | Lab4/Q2/fib_shm.c:19 | strtol first skips exactly the leading white space |
| CNum.DigitRun | Lab4/Q2/fib_shm.c:19 | the digits strtol reads are the longest run of leading digits |
| CNum.Clamp | Lab4/Q2/fib_shm.c:19 | an out-of-range value becomes LONG_MAX or LONG_MIN and one in range stays |
| CNum.StrToL | Lab4/Q2/fib_shm.c:19 | strtol's value fits a long; without a digit it is 0 and the end pointer stays at the start; otherwise the end pointer stops right after the last digit |
| CNum.ParseArg | Lab4/Q2/fib_shm.c:19-20 | the `*e == '\0'` check passes exactly when strtol read the whole argument, and then gives its value |
| CNum.Digits | Lab4/Q2/fib_shm.c:44 | %ld prints at least one digit and nothing but digits for a non-negative value |
| CNum.Decimal | Lab4/Q2/fib_shm.c:43-44 | a printed value is never empty and has no space, newline or NUL, so it is one token |
| CNum.ValueDigits | Lab4/Q2/fib_shm.c:19-44 | the digits %ld prints spell the number |
| CNum.DigitRunAll | Lab4/Q2/fib_shm.c:19 | strtol reads every digit of a string made only of digits |
| CNum.ParseDecimal | Lab4/Q2/fib_shm.c:19-44 | strtol reads back exactly what %ld printed, and all of it, for every value a long holds |
| CNum.ParseEdges | Lab04/Q2/fib_fork.c:9-10 | an empty argument is read as 0, a lone sign or a trailing space is refused, and a leading space is skipped |
| Pipeline.BoundedBuffer.constructor | Lab5/q1_pipeline.c:30-36 | bb_init leaves an empty ring of `cap` slots with head, tail and count at 0 |
| Pipeline.BoundedBuffer.Put | Lab5/q1_pipeline.c:43-51 | once there is room, the value joins the back of the buffer at the old tail, the tail moves one slot round the ring and the count grows by one |
| Pipeline.BoundedBuffer.Get | Lab5/q1_pipeline.c:52-61 | once there is a value, the oldest leaves the buffer from the old head, the head moves one slot round the ring and the count drops by one |
| Pipeline.WrapShift | Lab5/q1_pipeline.c:56 | advancing the head one slot keeps every remaining value at its ring position |
| Pipeline.ProductionCounter.constructor | Lab5/q1_pipeline.c:21 | next_to_produce starts at 0 with no index handed out |
| Pipeline.ProductionCounter.Claim | Lab5/q1_pipeline.c:67-73 | a producer gets the next index exactly while fewer than N are taken, and the counter then grows by one; otherwise nothing changes |
| Pipeline.ProductionCounter.ClaimsDistinct | Lab5/q1_pipeline.c:67-73 | no index is produced twice and every index is below N |
| Pipeline.ProcessValue | Lab5/q1_pipeline.c:91-97 | a processor stops exactly on the sentinel -1 and otherwise forwards the square, which is never negative and never the sentinel |
| Pipeline.ProcessStream | Lab5/q1_pipeline.c:88-110 | a processor forwards at most what it receives, never a negative value, and the square of each value in order when no sentinel comes |
| Pipeline.StopsAtSentinel | Lab5/q1_pipeline.c:92-95 | nothing after the first sentinel is forwarded |
| Pipeline.ProcessOne | Lab5/q1_pipeline.c:91-97 | one processor iteration takes the oldest value of the first buffer and either stops on the sentinel or puts its square at the back of the second |

## Left out

- Threads, mutexes, condition variables and semaphores are not modelled. Each locked section is one sequential method, and a condition wait becomes a precondition (as in `Pipeline.BoundedBuffer.Put` and `Get`).
- Process creation, `wait`, pipes, shared memory and `mmap` as system calls are not modelled. What a process prints is returned as a string.
- The failure of `malloc` and `fork` is not modelled. Whether `mmap` and `munmap` succeed is a boolean parameter (`mmapOk`, `munmapOk`), and both outcomes are modelled.
- `PipesCase.ReadCount` assumes one `read` takes everything already written, up to its limit. Short reads from a pipe are not modelled.
- Floating-point times and `time.time()` are replaced by an integer logical clock.
- MatMul.Worker: the 64-bit `long long` accumulator is an unbounded integer. Only the final cast to `int` is modelled, by `MatMul.Int32`, so an overflow of the 64-bit sum itself is not captured.
- Fib.ForkSequence: values are unbounded integers. The overflow of `long long` for n > 92 is not modelled.
- The Fcfs queue's node allocation and `free` are not modelled. Nodes are objects that stay allocated.
- Ealloc.Heap.Ecleanup: the `free` of every allocation record, free-list node and page descriptor is modelled as emptying the lists. `ecleanup_alloc` does not unmap the pages, and the model keeps `nextBase`, so pages mapped later get fresh addresses.
- A page address from `mmap` is a fresh number. A pointer is a (page, offset) pair, or an offset in the single-page allocator.
- In the fragmentation program, the driver that reads commands with `scanf`, draws with `rand` and prints the block list is not modelled.
- In the page-replacement program, the random reference string is a parameter, and the printing `main` is not modelled.
- PageReplace.SimulateFifo and PageReplace.SimulateLru require `|refs| == REF_LEN` and at least one frame. The source's global array has that length, and `main` uses 1 to 7 frames.
- In the virtual-memory simulator, the process, scheduler and master threads, the request queue and the logging are not modelled. Only the MMU thread's handling of one request is.
- In the Banker program, the customer threads, their random requests and releases, and the printing are not modelled.
- Banker.Bank.IsSafe: completeness (a safe state gives `true`) is proved only when allocations are non-negative. Soundness holds for every state.
- The scheduler's `printState` output is not modelled.
- In the round-robin signal scheduler, `main` is not modelled: forking the children, `SIGSTOP`/`SIGCONT`, the time slices and `waitpid`. The model covers its PID queue.
- Two copies of the FIFO scheduler exist, Lab03/Q3 and Lab3/Q3. They are the same program, so the model cites Lab03/Q3.
- In the matrix program, `free_matrix`, reading the sizes with `scanf` and printing are not modelled.
- Banquet.IdQueue.Push requires room in the queue, which `q_push` does not check. Banquet.Table.QueueBounded proves the table never holds more waiting philosophers than the capacity, so no call exceeds it.
- Banquet.Table.WaiterPass: the waiter's re-check that a chosen philosopher is still active is not modelled. The purge before it has already removed every inactive one.
- In the seating program, reading and writing the Excel workbooks (pandas), the argument parsing, the logging and the `sys.exit` on an empty schedule are not modelled.
- SeatRooms.Digits: only the ASCII digits count as digits. Python's `str.isdigit` also accepts other Unicode digits.
- Python's `int()` on a capacity cell is not modelled. Each room row carries its result as an `Option`, and `None` stands for a cell whose conversion raises.
- The two versions of `allocate` differ in one point only. In the single-block attempt, Lab8 skips blocks with no remaining seats (Lab8/seating_arrangement.py:119). One allocation rule with a `skipEmpty` flag models both, and `SeatAlloc.AllocAllSkipSame` proves that the two agree on sound blocks. The programs' other differences lie outside `allocate` and are not modelled: layout detection (`find_layout_and_build_schedule` against `detect_layout`) and argument defaults.
- The passes that stop with `if needed == 0: break` are modelled as passing over the remaining rooms without taking anything. This gives the same records and rooms.
- `copy.deepcopy` of the room template is modelled by value semantics: each slot starts from the template itself.
- Lab08 sorts the subject list in place. The model sorts the list as a value.
- SeatRooms.BuildRooms: the total capacity is proved to be the sum of the usable rows' effective capacities. It is not tied to the seats of the layout, because the program only logs it.
