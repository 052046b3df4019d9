# Verified models of the sensor gateway's shared data structures

The gateway receives sensor readings, buffers them, keeps a running average per sensor and stores every
reading in a database. Three stateful components carry that work, and each is modelled here in the form the C
code has and proved to agree with a simple mathematical object:

* `lib/dplist.c`, a doubly linked list with callbacks, is a class whose `head`, `tail`, `size`, `prev`, `next` and
  `element` fields are updated in place. Every operation refines an operation on a sequence; the bubble sort is
  proved equal to a functional stable sort, with an exact count of exchanges and a bound on passes.
* `sbuffer.c`, a mutex-protected FIFO, appears twice: as a class used by one thread, and as a step machine in which
  any number of threads execute insert and remove one statement at a time on an explicit heap with malloc and free.
  The machine is proved free of memory faults, free of deadlock, and to refine an atomic queue.
* `datamgr.c` keeps a sliding window per sensor. The class model shows that the table always equals a function of the
  whole reading history; a second step machine interleaves updates and queries statement by statement under
  `list_mutex` and shows that queries are atomic and ordered in real time.

`sensor_db.c` contributes its consuming loop. The pipeline model joins both step machines: producers, the datamgr loop,
the storagemgr loop and threads that query the datamgr run around one buffer and one table. It proves that every
inserted reading reaches exactly one consumer, in order, that the table always shows what datamgr took from the buffer
and applied, and that every query answer is the one for a prefix of what datamgr took.

| file | content |
|---|---|
| `Util.dfy` | optional values, edits of sequences, sequences without duplicates |
| `Ordering.dfy` | total preorders, inversions, the functional stable sort and its uniqueness |
| `BubblePass.dfy` | what one sweep of the bubble sort establishes |
| `ListLaws.dfy` | searches, repeated removal and sorted insertion on sequences |
| `DList.dfy` | the doubly linked list |
| `DListRuns.dfy` | pointer walks, cancelling operations, arbitrary histories, copies |
| `Windows.dfy` | the sliding window and the table as functions of the history |
| `DataMgr.dfy` | sensors with their arrays, map loading, updates, queries |
| `SBuffer.dfy` | the buffer used by one thread |
| `SBufferThreads.dfy` | the buffer under threads: statements, heap, inductive invariant |
| `SBufferRefinement.dfy` | refinement of the atomic queue, conservation, final freeing |
| `SBufferOutcomes.dfy` | what a returned insert or remove has done, from calls, results and logs alone |
| `SBufferProgress.dfy` | single calls within a run: one commit point each, few steps, no deadlock |
| `Pipeline.dfy` | producers, both consumers and querying threads around the buffer and the table |
| `StorageMgr.dfy` | the storagemgr loop with the database as an oracle |
| `QueryThreads.dfy` | updates and queries interleaved under `list_mutex` |
| `QueryOutcomes.dfy` | what a returned update or query has done, from calls, map file, readings and answers alone |
| `QueryProgress.dfy` | updates and queries are short and never deadlock |
| `PipelineProgress.dfy` | the same for the whole pipeline, and queries ordered in real time |

## Conventions

* The callbacks of dplist: `compare` is a pure function that sorting and rank results assume to be a total preorder
  on a set holding the elements involved (`Ordering.Preorder`); datamgr's `element_compare` is shown to be one. What
  `element_copy` returns is a parameter (`copied`, `copies`), because it allocates; calls of `element_free` are logged.
* `free` is logged too: each structure records every node it ever linked and every node it freed, and its invariant
  says that the linked ones are exactly those in the chain plus those freed, each freed once.
* `Outcome.NullDereference` stands for the program stopping at a dereference of NULL.
* Outcomes of malloc, of creating or destroying a mutex, and of the database are parameters.
* A proof may begin with `hide`, which keeps the listed definitions folded in that proof.

## Where the code and its comments disagree

The models follow the code.

* `dpl_remove_at_index` dereferences NULL for the last index of a list of two or more elements
  (lib/dplist.c:191-198). The contract of `RemoveAtIndex` says so exactly, and `RemoveLastIndexStops` is an instance.
* It returns NULL, not the list, when the list is empty (lib/dplist.c:167-169).
* `dpl_sort` dereferences NULL on an empty list (lib/dplist.c:273-274).
* `dpl_insert_at_reference` inserts after the reference and in front for NULL (lib/dplist.c:580-596); lib/dplist.h
  announces insertion at the reference and nothing for NULL.
* As a consequence `dpl_insert_sorted` keeps a list sorted only if it was empty or already held an equal element
  (`InsertSortedSortedIff`, with the instance `InsertSortedWitness`).
* The running average is padded with zeros before the window is full (`EarlyAverage`, `EarlyAverageWitness`);
  datamgr.h:85 announces 0.
* `insert_sensor` returns the status of the last step, which is not 0 on success, so sensor_db.c:60 does not tell
  success from failure. The loop's behaviour is proved for arbitrary status values.
* storagemgr never reconnects after its first successful connection, since nothing sets `conn` back to NULL
  (sensor_db.c:45-55).

## Model

| member | source | states |
|---|---|---|
| `Ordering.StableSortCorrect` | lib/dplist.c:257-264 | the functional reference is sorted and rearranges nothing inside a compare-equal class |
| `Ordering.StableSortedUnique` | lib/dplist.c:257-264 | a sorted, stable arrangement is unique, so "sorted and stable" pins the result of the sort down |
| `Ordering.SwapRemovesOneInversion` | lib/dplist.c:275-280 | exchanging an out-of-order neighbouring pair lowers the number of inversions by exactly one |
| `Ordering.SwapKeepsClass` | lib/dplist.c:275-280 | such an exchange reorders no compare-equal class |
| `BubblePass.SweepSwap` | lib/dplist.c:275-282 | an exchange carries the prefix maximum along and disturbs no final position |
| `BubblePass.TallyComplete` | lib/dplist.c:272-283 | a complete sweep makes one more position final; if it exchanged nothing the list is sorted, otherwise fewer than size - 1 positions were final before it |
| `BubblePass.SortComplete` | lib/dplist.c:271-284 | when the outer loop stops, the result is the functional stable sort, exchanges equal the inversions of the input, and at most size sweeps were made |
| `DList.List.constructor` | lib/dplist.c:35-49 | a new list is empty, valid, and has linked and freed nothing |
| `DList.List.LinkFirst` | lib/dplist.c:115-125 | wires a node in front and changes no other link |
| `DList.List.LinkLast` | lib/dplist.c:126-136 | wires a node at the end and changes no other link |
| `DList.List.LinkInner` | lib/dplist.c:137-147 | wires a node at an inner index and changes no other link |
| `DList.List.InsertAtIndex` | lib/dplist.c:104-150 | keeps the full list invariant and inserts exactly one element at the clamped index; everything else keeps its order; an index of 0 or less makes the new node the head, one of size or more the tail, any other puts it at that index |
| `DList.List.LinkAfter` | lib/dplist.c:579-602 | wires a node after the reference, or in front for NULL, and moves tail when needed |
| `DList.List.InsertAtReference` | lib/dplist.c:564-605 | keeps the invariant and inserts one element after the reference, or in front for NULL, with the links of the new node, the reference and its old successor named |
| `DList.List.InsertSorted` | lib/dplist.c:618-631 | inserts after the first element not below the new one, or in front when all are below; all old nodes follow the new head unchanged in the second case, and prev of the new node is the first old node not below it in the first |
| `DList.List.UnlinkFirst` | lib/dplist.c:171-180 | takes the first node out of the chain |
| `DList.List.UnlinkLast` | lib/dplist.c:181-190 | takes the last node out of the chain |
| `DList.List.UnlinkInner` | lib/dplist.c:191-199 | takes an inner node out of the chain, or stops at the NULL dereference exactly for the last index |
| `DList.List.RemoveAtIndex` | lib/dplist.c:166-206 | NULL for an empty list, NULL dereference exactly for 0 < index = size - 1, otherwise exactly the node at the clamped index leaves and is freed, its element freed once if asked; an index of 0 or less frees the old head, one of size or more the old tail, any other the node at that index |
| `DList.List.Unlink` | lib/dplist.c:663-677 | takes any member node out of the chain |
| `DList.List.RemoveAtReference` | lib/dplist.c:658-691 | exactly the referenced node leaves and is freed; NULL changes nothing |
| `DList.List.RemoveElement` | lib/dplist.c:706-719 | removes the first match and nothing else, or changes nothing |
| `DList.List.Free` | lib/dplist.c:60-72 | after it, every node ever linked has been freed exactly once, and element_free was called once per remaining element in order if asked; no node is read after it was freed |
| `DList.List.GetReferenceAtIndex` | lib/dplist.c:220-235 | head for an index of 0 or less, tail for size or more, else the node at the index; NULL for an empty list |
| `DList.List.GetElementAtIndex` | lib/dplist.c:249-255 | the element of head, of tail or of the node at the index, likewise; none for an empty list |
| `DList.List.GetIndexOfElement` | lib/dplist.c:402-416 | the index of the first match, or -1 |
| `DList.List.GetReferenceOfElement` | lib/dplist.c:512-524 | the node of the first match, or NULL |
| `DList.List.GetIndexOfReference` | lib/dplist.c:536-550 | the index of the node, or -1 exactly when it is not in the list |
| `DList.List.CompareExchange` | lib/dplist.c:275-280 | one call of compare; the conditional exchange advances the sweep by one position and the exchange count by at most one |
| `DList.List.SweepOnce` | lib/dplist.c:272-282 | one iteration of the outer loop: size - 1 calls of compare, counted call by call; stable, each exchange removes one inversion, one more position final |
| `DList.List.Sort` | lib/dplist.c:265-285 | the contents become the functional stable sort of the input; exchanges equal the input's inversions, at most size sweeps, and the calls of compare counted in the sweeps add up to size - 1 for each; only `element` fields may change; NULL dereference exactly for the empty list; the result is sorted, a permutation, and leaves every compare-equal class in order |
| `DList.List.Copy` | lib/dplist.c:295-306 | a fresh list of fresh nodes holding the copies in order; the source is not modified |
| `ListLaws.SortedLookupIsRank` | lib/dplist.c:402-416 | after sorting, looking up a key gives the number of strictly smaller elements of the unsorted input, or -1 if nothing matched |
| `ListLaws.RemoveAllMatches` | lib/dplist.c:706-719 | on the sequence model: after n removals of x there is still a match exactly if n < count(x), and after count(x) exactly the non-matching elements remain in order; RemoveAllEqual rests on it |
| `ListLaws.InsertSortedSortedIff` | lib/dplist.c:618-631 | on a sorted list the result is sorted if and only if the list was empty or held an equal element |
| `ListLaws.InsertSortedWitness` | lib/dplist.c:618-631 | inserting 1 into the sorted list 2 gives 2, 1 |
| `ListLaws.InsertSortedThenSort` | lib/dplist.c:618-631 | a following sort always gives a sorted list with exactly one occurrence more |
| `DListRuns.WalksAgree` | lib/dplist.c:7-18 | from head, next visits every node once and then reaches NULL; from tail, prev visits them in reverse and then reaches NULL; size is their number |
| `DListRuns.ChainedIffWalks` | lib/dplist.c:7-18 | the link invariant holds if and only if both walks end at NULL after visiting the nodes once, in opposite orders |
| `DListRuns.SearchesAgree` | lib/dplist.c:512-550 | index of the reference of x equals index of x, -1 included; index of the reference at an index gives the clamped index back |
| `DListRuns.ReferenceRoundTrip` | lib/dplist.c:220-550 | the reference at the index of any member node is that node |
| `DListRuns.RemoveAllEqual` | lib/dplist.c:706-719 | on the list itself: removing x until there is no match takes exactly count(x) removals and leaves exactly the non-matching elements in order |
| `DListRuns.SortThenFind` | lib/dplist.c:265-416 | on the list itself: sort, then the index of x is its rank in the unsorted list, or -1 |
| `DListRuns.InsertSortedOnList` | lib/dplist.c:618-631 | on the list itself: dpl_insert_sorted leaves a sorted list sorted if and only if it was empty or held an equal element |
| `DListRuns.InsertSortedThenSorted` | lib/dplist.c:265-631 | on the list itself: a sort after any number of such insertions leaves exactly the old and the new elements, sorted |
| `DListRuns.InsertThenRemoveRestores` | lib/dplist.c:564-605 | inserting after any reference and removing the new node restores every prev, next, element, head, tail and size |
| `DListRuns.RemoveThenReinsertRestores` | lib/dplist.c:658-691 | removing a node and re-inserting its element after its predecessor restores the element sequence |
| `DListRuns.RemoveLastIndexStops` | lib/dplist.c:191-198 | two insertions and a removal at index 1 end in the NULL dereference |
| `DListRuns.Perform` | lib/dplist.c:104-719 | any single insertion, removal or sort, with either value of insert_copy and free_element, does to the list what the sequence model does, frees the element it has to, and accounts for its node; for the sort, compare must be a total preorder |
| `DListRuns.PerformAll` | lib/dplist.c:104-719 | any history of such calls keeps the invariant, follows the sequence model, and stops exactly when the model says so; nodes in the chain plus nodes freed grow by one per insertion, the log of freed nodes only grows, and the elements freed are those of the removals that asked for it, in order; compare must be a total preorder only if a sort is among the calls |
| `DListRuns.NothingLost` | lib/dplist.c:104-719 | over any history the elements put in and those there before are, with multiplicity, those taken out and those left |
| `DListRuns.EveryElementFreed` | lib/dplist.c:60-72 | if every removal and the final dpl_free free elements, the elements freed are, with multiplicity, the elements inserted |
| `DListRuns.HistoryThenFree` | lib/dplist.c:60-72 | any history from an empty list ended by dpl_free frees as many nodes as insertions were made, none twice; the elements freed are those of the flagged removals in order followed by the remaining ones if asked; if every call asks, each element handed to the list is freed exactly as often as it was handed over |
| `DListRuns.CopyThenDiverge` | lib/dplist.c:295-306 | however calls on a copy and on the original are interleaved, each list follows its own sequence model, unaffected by the other; a total preorder is needed only for sorts |
| `Windows.WindowStep` | datamgr.c:69-70 | shifting the stored window and writing slot 0 equals recomputing the window from the longer history |
| `Windows.AverageStep` | datamgr.c:69-75 | an update changes the average by (new reading - evicted slot) / RUN_AVG_LENGTH |
| `Windows.AverageBetween` | datamgr.c:71-75 | the average lies between any bounds of the last RUN_AVG_LENGTH readings, with 0 included while fewer arrived |
| `Windows.EarlyAverage` | datamgr.h:84-90 | before the window is full the average is the total over RUN_AVG_LENGTH, hence 0 exactly when the total is 0 |
| `Windows.EarlyAverageWitness` | datamgr.h:84-90 | one reading of 20 degrees gives an average of 4 |
| `Windows.WindowTotal` | datamgr.c:68-74 | however many readings arrived, the slots add up to the total of the latest RUN_AVG_LENGTH of them |
| `Windows.EntryDescribed` | datamgr.c:43-77 | an entry in plain terms: slot k holds the k-th latest reading of the id or 0.0, the time is that of the latest, the average is the total of the latest RUN_AVG_LENGTH over RUN_AVG_LENGTH, the room is the file's modulo 65536 |
| `Windows.AnswersSpelledOut` | datamgr.c:88-134 | the three answers from the map file and the readings alone: first room of the id modulo 65536 or 65535, total of the latest RUN_AVG_LENGTH readings of the id over RUN_AVG_LENGTH or 0.0, time of its latest reading or 0 |
| `Windows.EntryStep` | datamgr.c:62-77 | one reading changes at most the first entry with its id, and that one by a shift, a new timestamp and a new average |
| `Windows.LaterDuplicatesStayInitial` | datamgr.c:62-65 | with duplicate ids only the first entry is ever updated |
| `Windows.AnswersDependOnOwnReadings` | datamgr.c:104-134 | the functions that GetAvg and GetLastModified compute depend only on the readings of their id |
| `DataMgr.OwnReadingsDecide` | datamgr.c:88-134 | two tables loaded from the same map give the same answers about an id once they consumed the same readings of that id, whatever else they consumed |
| `Windows.UpdatesCommute` | datamgr.c:56-80 | two updates of different ids anywhere in a stream can be exchanged |
| `Windows.AppendRecord` | datamgr.c:41-53 | loading another record leaves earlier entries alone |
| `DataMgr.ElementComparePreorder` | datamgr.c:22-28 | element_compare is a total preorder, and equality means equal ids, and a negative result means a smaller id |
| `DataMgr.Sensor.constructor` | datamgr.c:43-49 | a new sensor shows the id, the room truncated to 16 bits and zeros |
| `DataMgr.Sensor.Copy` | datamgr.c:10-15 | the copy has fresh storage and shows the same |
| `DataMgr.Sensor.ShiftRight` | datamgr.c:69 | the overlapping move shifts every slot by one and evicts the last |
| `DataMgr.Sensor.SumTemperatures` | datamgr.c:71-74 | the sum of all slots |
| `DataMgr.Sensor.Update` | datamgr.c:67-75 | timestamp, window and average after one reading; id and room unchanged; slot 0 is the reading and every other slot its left neighbour's old value |
| `DataMgr.Manager.AddRecord` | datamgr.c:43-52 | one more record at the end, in its initial state, earlier entries unchanged |
| `DataMgr.Manager.Consume` | datamgr.c:59-79 | after any reading, known or unknown, the whole table is the one the longer history implies |
| `DataMgr.TableDescribed` | datamgr.c:43-77 | in any valid manager every sensor in the list shows, in plain terms, what the map file and the consumed readings say |
| `DataMgr.UpdateOne` | datamgr.c:64-77 | an update changes what one sensor shows, by a shift, a new timestamp and a new average, and nothing that any other sensor shows |
| `DataMgr.Manager.GetRoomId` | datamgr.c:88-102 | the room of the first record with the id, modulo 65536; 65535 if there is none |
| `DataMgr.Manager.GetAvg` | datamgr.c:104-118 | the total of the latest RUN_AVG_LENGTH readings of that id, or of all while there are fewer, over RUN_AVG_LENGTH; 0.0 if unknown |
| `DataMgr.Manager.GetLastModified` | datamgr.c:120-134 | the timestamp of that id's latest reading, 0 if unknown or none |
| `DataMgr.Manager.GetTotalSensors` | datamgr.c:136-142 | the number of records |
| `DataMgr.Manager.Free` | datamgr.c:83-86 | every node is freed once, and element_free has been called exactly once for every sensor, in list order |
| `DataMgr.LoadMap` | datamgr.c:34-53 | the table holds the file's records in file order, all initial |
| `DataMgr.ParseSensorData` | datamgr.c:30-81 | after any sequence of polls the table is the one implied by the readings that arrived |
| `DataMgr.DeepCopy` | datamgr.c:10-15 | dpl_copy with element_copy: fresh nodes, fresh sensors, fresh arrays shared by no two sensors, same contents in order |
| `DataMgr.SnapshotThenConsume` | lib/dplist.c:295-306 | no later update of the original shows in a deep copy |
| `DataMgr.SnapshotThenUpdateCopy` | lib/dplist.c:295-306 | an update of a deep copy shows neither in the original nor in the other copied sensors |
| `SBuffer.Init` | sbuffer.c:9-24 | success exactly when all three steps succeed; the buffer exists exactly when malloc succeeded, and it says which of mutex and condition variable exist |
| `SBuffer.Buffer.Insert` | sbuffer.c:82-106 | appends the reading, or fails and changes nothing |
| `SBuffer.Buffer.Remove` | sbuffer.c:51-79 | takes the first reading and frees its node, or reports no data and leaves *data alone |
| `SBuffer.Buffer.Free` | sbuffer.c:26-48 | success: every node ever linked has been freed exactly once; failure: no node is freed, and the mutex is gone exactly when only destroying the condition variable failed |
| `SBuffer.RunConserves` | sbuffer.c:51-106 | over any history: taken followed by remaining equals the successful insertions in order |
| `SBuffer.HistoryThenFree` | sbuffer.c:26-106 | any history closed by sbuffer_free returned a prefix of the insertions and freed as many nodes as readings were inserted, none twice |
| `SBufferThreads.Exec` | sbuffer.c:51-106 | a statement of insert or remove moves only its own thread |
| `SBufferOutcomes.MallocDecides` | sbuffer.c:82-106 | in every run, an insertion whose malloc returned an address returns Success and its reading was appended exactly once to what its thread inserted; one whose malloc returned NULL returns Failure and nothing was |
| `SBufferOutcomes.InsertOutcome` | sbuffer.c:82-106 | every returned call of sbuffer_insert(d) ran malloc for d once, and its result and effect are those that malloc decides |
| `SBufferOutcomes.RemoveOutcome` | sbuffer.c:51-79 | every returned call of sbuffer_remove returned a reading, exactly that one having been added to what its thread removed, or returned no data, removed nothing, and at some state during the call everything inserted had been removed |
| `SBufferThreads.NoFault` | sbuffer.c:51-106 | no statement touches unallocated memory, frees twice or unlocks without holding the lock |
| `SBufferThreads.MutexKept` | sbuffer.c:56-103 | exactly the lock holder is inside the critical region |
| `SBufferThreads.LinkedKept` | sbuffer.c:66-73 | the linked nodes stay allocated, distinct and linked in order at every statement |
| `SBufferThreads.EndsKept` | sbuffer.c:66-100 | head and tail are the ends of the chain except between the two halves of a double update |
| `SBufferThreads.KeysKept` | sbuffer.c:73-95 | allocated nodes are exactly the linked ones and those private to calls in flight |
| `SBufferThreads.InvKept` | sbuffer.c:51-106 | every statement of every thread keeps the inductive invariant |
| `SBufferRefinement.StepRefines` | sbuffer.c:51-106 | every statement is one step of the atomic queue, or none: a call, a return with the same result, or the whole effect at once |
| `SBufferRefinement.EffectsInsideLock` | sbuffer.c:56-103 | every operation takes effect, removals that find the buffer empty included, in a step before and after which its thread holds the lock; a failed insertion alone never locks |
| `SBufferRefinement.ChangesAreEffects` | sbuffer.c:51-106 | the queue changes in no other step |
| `SBufferRefinement.RunInv` | sbuffer.c:51-106 | the invariant holds in every state of every run by any number of threads |
| `SBufferRefinement.RunRefines` | sbuffer.c:51-106 | every run is a run of the atomic queue with the same calls, results and order of effects |
| `SBufferProgress.ReturnedCallsHaveOneCommitPoint` | sbuffer.c:51-106 | in every run, every call that returned took effect at exactly one step between call and return: the queue changed there as the operation prescribes, the result is that step's, and the thread held the lock unless it is a failed insertion |
| `SBufferProgress.CallsAreShort` | sbuffer.c:51-106 | a call ends after at most nine statements of its own thread, however the others interleave |
| `SBufferProgress.LockHeldBriefly` | sbuffer.c:56-103 | a thread gives the lock back within eight statements of its own |
| `SBufferProgress.RunsNeverStick` | sbuffer.c:51-106 | in every reachable state with a call in flight some thread inside a call can take a step |
| `SBufferRefinement.RunConserves` | sbuffer.c:51-106 | in every reachable state: inserted = removed followed by buffered, in order of effect |
| `SBufferRefinement.LockFreeWellFormed` | sbuffer.c:93-100 | when the lock is free, following the pointers in memory from head spells out the queue, head and tail are NULL together, and tail's next is NULL |
| `SBufferRefinement.FreeWhenQuiet` | sbuffer.c:40-44 | after any run, with no call in flight, the freeing loop faults nowhere and leaves nothing allocated |
| `Pipeline.PipeKept` | sensor_db.c:44-67 | every step of producers, datamgr, storagemgr and querying threads keeps the pipeline invariant |
| `Pipeline.PipelineConserves` | sensor_db.c:44-67 | in every reachable state the insertions are an interleaving of both consumers' removals followed by what is buffered; datamgr has applied and storagemgr attempted all of theirs in order, except at most one reading each |
| `Pipeline.ExitOnlyBeforeConnecting` | sensor_db.c:45-55 | storagemgr exits only after three failed connections in a row and no success, having removed nothing |
| `Pipeline.BeforeConnecting` | sensor_db.c:42-68 | a storagemgr that starts unconnected touches neither buffer nor database before init_connection first succeeds, is connected ever after, and exits if and only if four rounds have found it unconnected and none connected it |
| `Pipeline.PipelineTable` | datamgr.c:56-80 | in every reachable state, every table entry other than the one being updated shows what the map and the readings datamgr took and applied imply; these are a prefix of its share of the buffer, at most one reading short |
| `Pipeline.PipelineTableDescribed` | datamgr.c:56-80 | such an entry in plain terms: slot by slot, time, average and room |
| `Pipeline.PipelineAnswers` | datamgr.c:88-134 | every query answer in a pipeline run is that of the query run alone after some prefix of what datamgr took from the buffer, one that includes all that was applied when the query was called |
| `Pipeline.PipelinePrefixesGrow` | datamgr.c:56-134 | the prefixes that the queries of one thread see never get shorter along a pipeline run |
| `PipelineProgress.PipelineNeverSticks` | sensor_db.c:42-68 | in every reachable pipeline state datamgr, storagemgr unless it has exited, every producer inside an insertion and every thread inside a query can move, or the holder of a mutex can |
| `PipelineProgress.CallersCanCall` | sensor_db.c:42-68 | producers outside a call may insert any reading and querying threads may ask anything, in every pipeline state the invariant allows |
| `PipelineProgress.TableCallsAreShort` | datamgr.c:56-134 | the bound on updates and queries holds in pipeline runs |
| `PipelineProgress.BufferCallsAreShort` | sbuffer.c:51-106 | the bound of nine statements on buffer calls holds in pipeline runs |
| `PipelineProgress.LaterQueriesSeeMore` | datamgr.c:88-134 | in a pipeline run a query called after another one has returned answers for a prefix of what datamgr took from the buffer that is at least as long |
| `PipelineProgress.PipelineQueryOutcome` | datamgr.c:88-134 | in a pipeline run every returned query gave the answer that the map file and some prefix of what datamgr took from the buffer imply, in plain terms |
| `StorageMgr.ParseSensorData` | sensor_db.c:42-68 | exit exactly when starting unconnected with three failed attempts and a fourth round; otherwise one insert attempt per removed reading, in order, whatever the inserts return |
| `QueryThreads.Exec` | datamgr.c:61-134 | a statement of an update or a query moves only its own thread |
| `QueryThreads.TableDuringUpdate` | datamgr.c:68-74 | the half-done states of the entry under update |
| `QueryThreads.TableAfterUpdate` | datamgr.c:75-78 | completing the update makes the table show exactly one more reading |
| `QueryThreads.StepInv` | datamgr.c:61-134 | every statement of every thread keeps the inductive invariant |
| `QueryThreads.ConsistentWhenFree` | datamgr.c:61-78 | whenever list_mutex is free, every entry's window, average and timestamp describe the same applied readings, and average * RUN_AVG_LENGTH is the window's sum, which each entry shows in plain terms |
| `QueryThreads.QueriesAtomic` | datamgr.c:88-134 | every answer is that of a query run alone after a prefix of the applied readings no shorter than at the call |
| `QueryThreads.PrefixesNeverShrink` | datamgr.c:88-134 | the prefixes seen by successive queries of one thread never go backwards |
| `QueryThreads.LaterQueriesSeeMore` | datamgr.c:88-134 | in real time: a query called after another one, of any thread, has returned sees everything applied by the call, hence a prefix at least as long |
| `QueryOutcomes.QueryOutcome` | datamgr.c:88-134 | every returned query gave, to the question asked, the answer that the map file and some prefix of the applied readings imply, in plain terms, the prefix including all applied by the call |
| `QueryOutcomes.UpdateOutcome` | datamgr.c:61-78 | every returned update made its reading, and nothing else, count as applied exactly once |
| `QueryProgress.CallsAreShort` | datamgr.c:56-134 | an update or a query ends after at most 9 + RUN_AVG_LENGTH + 2 * (number of records) statements of its own thread, however the others interleave |
| `QueryProgress.LockHeldBriefly` | datamgr.c:61-134 | list_mutex is given back within that many statements of its holder |
| `QueryProgress.RunsNeverStick` | datamgr.c:61-134 | in every reachable state with an update or a query in flight some thread inside one can take a step |

## Left out

- NULL list, buffer and index arguments of dplist and sbuffer: one-branch guards; the first, last, next and previous wrappers are one call each (the `_last` ones pass -1 and so act on the front).
- 32-bit `int` sizes and indexes of dplist are unbounded integers here; overflow needs more than two billion nodes.
- DList.List.InsertAtReference: membership of the reference is required, because the source does not check it; the same holds for RemoveAtReference.
- DList.List.RemoveAtIndex: nothing is said about the list after the NULL dereference, because the program has stopped.
- DList.List.InsertAtIndex: malloc is taken to succeed, since the source asserts that it does.
- DataMgr.Manager.AddRecord: parsing of the map file is left out; the sensor allocated for each record before it is copied into the list is never freed by the source and is outside the accounting.
- DataMgr.Sensor.Update: temperatures and averages are real numbers, so floating-point rounding is not modelled.
- Windows.Window: the window length is the default 5 of datamgr.h; the proofs use only that it is positive.
- QueryThreads.StepInv: memmove, a call on memory that only the lock holder reaches, is a single step; any thread may update, where the program has one updater.
- QueryThreads.Exec: the contract names only what stays; what the statements of a call amount to is proved by QueryOutcome, UpdateOutcome, TableDuringUpdate and TableAfterUpdate. The machine starts after map loading, and calling a query while the map is loaded is not modelled.
- SBufferThreads.Exec: the contract names only what stays; what the statements of a call amount to is proved by InsertOutcome, RemoveOutcome and StepRefines.
- Pipeline.PipeKept: the end of the loops when the buffer pointer becomes NULL is the end of a run; loading the map happens before the run.
- SBufferRefinement.FreeWhenQuiet: sbuffer_free is modelled only when no call is in flight, as it destroys the mutex.
- SBuffer.Buffer.Insert: requires that the mutex exists if it comes to locking, and SBuffer.Buffer.Remove that it exists, because locking a mutex that was never initialized or was destroyed is undefined; sbuffer.c does not look at the status of the lock.
- `sbuffer_get_data` is not part of this model: it locks a mutex that is not declared (sbuffer.c:112).
- The condition variable of the buffer: it is never waited on or signalled.
- The SQLite calls, `init_connection`, `insert_sensor` and the find functions: foreign code; their results are oracles.
- `connmgr.c`, `main.c`, `lib/tcpsock.c`, `sensor_node.c`, `file_creator.c`: sockets, processes, logging and test data; producers are arbitrary callers of sbuffer_insert.
- Liveness and fairness: for both mutexes, alone and in the pipeline, it is proved that nothing deadlocks and that calls and lock regions are short, but not that the scheduler ever gives a mutex to a given thread.
