# A verified model of the bounded key-value cache

The repository is a byte cache with a capacity, served over HTTP to a client. This project models
it in Dafny and proves what its operations, its runs and its threads keep:

- the cache (`cache_lib.cc`): `set` with its guards and its eviction loop, `get`, `del`, `reset`,
  in the program's own arithmetic (32-bit unsigned sizes, comparisons in signed `int`);
- the eviction policies behind it (`evictor.hh`, `lru_evictor.cc`, `fifo_evictor.cc`);
- the threads that share one cache under its mutex;
- the wire format between the client and the server (`cache_client.cc`, `cache_server.cc`).

## How it is laid out

| file | what it holds |
|---|---|
| `Basics.dfy`, `Sequences.dfy` | keys, machine integers, the byte count of a table; sequences without repetition |
| `EvictionPolicy.dfy` | an evictor as a queue of keys; LRU against time stamps, FIFO against its history |
| `LruEvictor.dfy`, `FifoEvictor.dfy`, `Evictors.dfy` | the two evictors on the heap, and the pointer the cache calls them through |
| `CacheModel.dfy` | each operation as a function of the cache's state, and runs of operations |
| `SetIsExact.dfy` | `set` over the mathematical integers, without a loop; when the program's `set` is it |
| `CacheRuns.dfy` | the invariant, the faults, the contract of `set`, agreement with a map that forgets nothing |
| `CacheContract.dfy` | what each operation answers and does to the rows, under any evictor; without one, the cache is a bounded map |
| `EvictionHistory.dfy` | the evictor's history inside whole cache runs |
| `RecencyList.dfy`, `LruRefinement.dfy` | the simple LRU list, and the LRU cache as a refinement of it |
| `Erasure.dfy` | no operation looks at what a row stores |
| `CacheLib.dfy` | the cache on the heap, with the ownership of its buffers |
| `CallSteps.dfy`, `Threads.dfy` | calls in small steps, and all interleavings of them |
| `ThreadHistory.dfy`, `ThreadRuns.dfy` | the record of the calls is what the threads did; every sequential run can come about |
| `Codec.dfy`, `JsonReader.dfy` | targets and bodies; a reader of JSON objects, independent of the printing |
| `Server.dfy`, `ServerContract.dfy`, `Client.dfy` | the request handler, what a client may rely on request by request, the client |

The functions of `CacheModel.dfy` are the hinge. They are generic in what a row stores: with byte
strings and with the buffers themselves they specify the heap methods of `CacheLib.dfy`, with any
identity of a buffer they specify the threads. `AssertFails` and `SignedOverflow` are replies of
their own, so that a failing assertion or an overflow is a result that can be reasoned about; no
precondition hides it.

Every proof by induction is written out; where Dafny would try an induction of its own it is
switched off (`{:induction false}`).

The source's abstract `Evictor` is a datatype over the two evictor classes (`Evictors.EvictorRef`);
its contract speaks of the policy and the queue only, and the cache is proved against that contract.

## What does not hold

- `cache.hh:57-59` promises that a value for which there is no room is just not inserted. The guard
  at `cache_lib.cc:69` tests the change in size, not the size. A row overwritten by a value larger
  than the whole cache, but by at most the capacity larger than the row, passes it; the loop then
  evicts everything and fails its assertion. `CacheRuns.FaultsIff` says exactly when,
  `CacheRuns.OverwriteFailsAssertion` gives a run, `SetIsExact.SetFaultsIff` covers queues with "".
- The casts to `int` are harmless exactly when twice the capacity is an `int`
  (`SetIsExact.CapacityBoundIsExact`), and then exactly for values whose size is an `int`
  (`SetIsExact.SetIsIdealIffSizeIsInt`). Above that capacity two values as large as the cache
  overflow the sum (`CacheRuns.FullCacheOverflows`). A size beyond `int` breaks the memory bound
  silently: as a negative change it passes the guards, and if the call returns the byte count has
  wrapped. Of the calls that return, exactly those with a size within `int` keep the count right
  (`CacheRuns.StepConservesIff`); `CacheRuns.WideSizeBreaksCount` gives a run that ends with a count
  of 0 and two rows in the table.
- A reset leaves a fresh cache exactly when no "" stands in the queue before its last place
  (`CacheRuns.ResetIsFreshIff`). The server passes on empty keys (`PUT //v`), which `evictor.hh:27`
  reserves. A value under "" that has to make way fails the assertion of the loop, though the new
  value fits (`CacheRuns.BlankKeyFailsAssertion`), and one queued before another key lets that key
  outlive a reset (`CacheRuns.BlankKeyOutlivesReset`). So the run theorems about the evictor assume
  that no value is stored under ""; those about the byte count and about the map do not.
- A larger LRU cache may lose a row that a smaller one keeps, some time after a get that hits in the
  larger one only: `get` does not insert on a miss. Such a get is harmless in all later runs exactly
  when the smaller cache is empty or the row got is no larger than the difference in capacity
  (`LruRefinement.UnevenGetKeepsInclusionIff`); `LruRefinement.UnevenGetLosesRow` gives a run.
- The client does not undo JSON escapes and looks for `"}` from the start of the body; the value
  comes back under an exact condition only (`Codec.BodyRoundTripIff`, `Client.RemoteHitIff`).

## Model

| member | source | states |
|---|---|---|
| EvictionPolicy.TouchContract | evictor.hh:19-28 | under both policies a touch adds the key, loses none and puts it last; LRU never repeats a key |
| EvictionPolicy.LruSortsByLastTouch | lru_evictor.cc:35-135 | after any history of touches and evictions the list is the tracked keys, sorted by the time of their last touch |
| EvictionPolicy.LruEvictsOldest | lru_evictor.cc:113-135 | an eviction answers the key whose last touch is the oldest, and "" exactly when none is tracked |
| EvictionPolicy.FifoAnswersTouchesInOrder | fifo_evictor.cc:14-29 | answered evictions and queue together are exactly the touches in order |
| LruEvictor.LruEvictor.constructor | lru_evictor.cc:21-26 | a new evictor has an empty list and an empty index |
| LruEvictor.LruEvictor.TouchKey | lru_evictor.cc:35-111 | the linked list and its index stay mutually consistent; the queue becomes the touched queue; every assertion of the source holds |
| LruEvictor.LruEvictor.Retouch | lru_evictor.cc:71-108 | a known key is moved to the back; no node is added or lost |
| LruEvictor.LruEvictor.LinkAtTail | lru_evictor.cc:45-69 | each of the three insertion branches leaves a doubly linked list with the node at its end |
| LruEvictor.LruEvictor.MoveToTail | lru_evictor.cc:71-108 | the branches for head, tail and middle move exactly the one node to the end |
| LruEvictor.LruEvictor.RotateHead | lru_evictor.cc:82-90 | the head moves to the end of a list of two nodes or more |
| LruEvictor.LruEvictor.MoveFromMiddle | lru_evictor.cc:97-108 | a node strictly inside is unlinked and linked at the end |
| LruEvictor.LruEvictor.Evict | lru_evictor.cc:113-135 | answers the front key, or "" when empty, and pops the queue; list and index stay consistent |
| LruEvictor.LruEvictor.UnlinkHead | lru_evictor.cc:120-130 | the rest of the list stays doubly linked, also when it becomes empty |
| FifoEvictor.FifoEvictor.TouchKey | fifo_evictor.cc:14-17 | the queue gets one more occurrence of the key |
| FifoEvictor.FifoEvictor.Evict | fifo_evictor.cc:19-29 | answers and pops the front, or answers "" and changes nothing |
| Evictors.EvictorRef.TouchKey | evictor.hh:22-23 | the virtual call has the effect its policy defines on the queue |
| Evictors.EvictorRef.Evict | evictor.hh:25-27 | the virtual call answers and removes the front of the queue |
| SetIsExact.PopsIsShortest | cache_lib.cc:80-90 | the prefix popped is the shortest that makes room; it never reaches past a "" |
| SetIsExact.MakeRoomIsIdeal | cache_lib.cc:80-101 | the loop, from any of its turns on, comes to the loop-free outcome, also when the key itself is evicted and over dead keys |
| SetIsExact.SetIsIdeal | cache_lib.cc:51-104 | with twice the capacity and the size within int, the machine-integer `set` is the mathematical one |
| SetIsExact.SetIsIdealIffSizeIsInt | cache_lib.cc:60-97 | under that capacity the two agree exactly for sizes up to 2^31-1 |
| SetIsExact.CapacityBoundIsExact | cache_lib.cc:65-80 | the two agree on all states of a capacity exactly when twice the capacity is at most 2^31-1 |
| SetIsExact.SumOverflows | cache_lib.cc:80 | above that bound, a full cache overflows the sum where there would be room after eviction |
| SetIsExact.SetFaultsIff | cache_lib.cc:69-90 | for any queue, also with "" in it: `set` fails an assertion exactly when the change passes the guard and evicting all that can be evicted is not enough |
| SetIsExact.StoredState | cache_lib.cc:80-101 | the table, byte count and evictor after an accepted `set` |
| SetIsExact.EvictionIsExact | cache_lib.cc:80-101 | an accepted `set` pops the shortest sufficient prefix and leaves the old table without it, with the key mapped to the new value |
| CacheRuns.StepKeepsGood | cache_lib.cc:43-146 | every operation that returns keeps: byte count = bytes in the table <= capacity; every row's key is in the queue; no "" and, for LRU, no repetition in the queue |
| CacheRuns.RunKeepsGood | cache_lib.cc:43-146 | the same in every run that has not aborted |
| CacheRuns.FaultsIff | cache_lib.cc:43-104 | an operation fails an assertion exactly when it overwrites a row past the guard; it is then the one in the loop, so `free` never wraps |
| CacheRuns.OverwriteFailsAssertion | cache_lib.cc:69-83 | a run of two calls that fails the assertion |
| CacheRuns.BlankKeyFailsAssertion | cache_lib.cc:82-83 | under both policies, a run of two values that both fit, the first under "", fails the assertion |
| CacheRuns.BlankKeyOutlivesReset | cache_lib.cc:143-145 | under both policies, a run through "" whose reset leaves a key queued |
| CacheRuns.RunKeepsConserved | cache_lib.cc:43-146 | in every run that has not aborted the byte count is the bytes in the table and at most the capacity, also with values under "" |
| CacheRuns.StepConservesIff | cache_lib.cc:60-99 | an operation that returns keeps the byte count right exactly when its size is an int |
| CacheRuns.WideSizeBreaksCount | cache_lib.cc:60-99 | a run of two accepted values that leaves a byte count of 0 and both rows in the table |
| CacheRuns.FullCacheOverflows | cache_lib.cc:80 | for every capacity from half of int up, a run of two values whose second overflows the sum |
| CacheRuns.FittingRunNeverFaults | cache_lib.cc:80-90 | a run of values that each fit the cache never fails an assertion or overflows |
| CacheRuns.SetContract | cache.hh:54-60 | stored exactly when the value fits the cache (with an evictor) or beside the other rows (without); a refused value changes nothing |
| CacheRuns.ResetIsFreshIff | cache_lib.cc:137-146 | a reset gives the state of a new cache exactly when the queue has no "" before its last place |
| CacheRuns.RunAfterReset | cache_lib.cc:137-146 | any run after a reset goes as on a new cache |
| CacheRuns.RunWithinMap | cache_lib.cc:51-147 | in every run from every state the table is a part of the map that applies all accepted sets, all deletes and resets and has no capacity |
| CacheRuns.HitsAreLatest | cache_lib.cc:106-119 | every hit answers the value and size last accepted for its key |
| CacheContract.StepContract | cache_lib.cc:51-146 | under any evictor or none, an operation that returns gives the right answer, loses no row but those evicted, deleted or reset, changes no row but the one set, and counts the bytes |
| CacheContract.WideSetIs | cache_lib.cc:60-99 | what becomes of a value of 2^31 bytes or more, in every case: overflow, failing assertion, or an accepted value with a wrapped byte count |
| CacheContract.DelContract | cache_lib.cc:121-129 | `del` answers true exactly when the key has a row, removes that row and no other, and leaves the evictor |
| CacheContract.SetStores | cache.hh:54-60 | a value that fits is in its row afterwards; any other is refused without a change or fails the assertion |
| CacheContract.ResetContract | cache_lib.cc:137-146 | a reset empties the table and drops the queue up to its first "", keeping what stands behind |
| CacheContract.AnswersAreRight | cache_lib.cc:51-147 | in every run of any policy each answer is the right one for the rows at that moment |
| CacheContract.DelTellsWhatGetWould | cache_lib.cc:121-129 | in every run of any policy the reply of a `del` tells whether a `get` in its place would have hit |
| CacheContract.RunKeepsAllElse | cache_lib.cc:51-147 | after every run the rows are exactly those accepted and not deleted, reset or evicted since |
| CacheContract.PlainCacheIsBoundedMap | cache_lib.cc:74-79 | without an evictor every run is the run of a map with a bound on its bytes, and never faults |
| EvictionHistory.RunFollowsHistory | cache_lib.cc:80-117 | the queue after a run is the one its touches and evictions define |
| EvictionHistory.LruCacheSortsByLastTouch | cache_lib.cc:80-117 | in every run of an LRU cache the queue is sorted by last touch |
| EvictionHistory.RunTouchesWhatIsSeen | cache_lib.cc:101-117 | the touches of a run are the keys of accepted sets and of hits |
| EvictionHistory.FifoCachePopsOldestTouch | fifo_evictor.cc:14-29 | in every run of a FIFO cache what was popped and what is queued are those touches in order |
| RecencyList.StepKeepsSuffix | cache_lib.cc:80-101 | one operation keeps the smaller list the most recent part of the larger |
| RecencyList.StepIsFollowed | cache_lib.cc:80-117 | whether a key is in the list after an operation, at which size and with which rows after it, is told by the operation and its reply: it goes exactly when its size and those of the others touched since are over the capacity |
| RecencyList.StepKeepsGuarantee | cache_lib.cc:80-101 | one operation keeps the coarser account of a key, with the others at their largest sizes, on the safe side of the exact one |
| LruRefinement.SetIsListSet | cache_lib.cc:80-101 | `set` on the LRU cache drops the key's row, then the oldest rows until the value fits, and appends |
| LruRefinement.StepIsListStep | lru_evictor.cc:35-135 | every operation on the LRU cache replies and acts as on the simple recency list |
| LruRefinement.LruCacheIsRecencyList | lru_evictor.cc:35-135 | every run of the LRU cache, with its dead keys, is a run of the simple recency list |
| LruRefinement.CapacityInclusion | cache_lib.cc:80-101 | through any run whose gets hit in both or miss in both, the smaller cache's list stays a suffix of the larger's |
| LruRefinement.LargerCacheLosesNothing | cache_lib.cc:80-101 | so of two new caches the larger has every row of the smaller, with equal values |
| RecencyList.StepKeepsCovers | cache_lib.cc:80-101 | one operation that both lists see alike keeps them covered: the smaller's rows are in the larger in the same order, and from each of them on the larger has at most the difference in capacity in additional bytes |
| LruRefinement.NeverLosesIff | cache_lib.cc:80-119 | of two LRU caches with their common rows in the same order, the larger keeps all that the smaller keeps through every run both see alike exactly when they are covered; otherwise one `set` loses a row |
| LruRefinement.UnevenGetKeepsInclusionIff | cache_lib.cc:106-119 | after a get that hits in the larger cache only, the larger keeps all that the smaller keeps through every run both see alike exactly when the smaller is empty or the row got is no larger than the difference in capacity |
| LruRefinement.UnevenGetKeepsListSuffixIff | cache_lib.cc:106-119 | the smaller list itself stays a suffix of the larger over such a get exactly when the smaller cache is empty |
| LruRefinement.UnevenGetLosesRow | cache_lib.cc:106-119 | a run of four calls after which a cache of 2 bytes holds a row that a cache of 3 bytes has lost |
| LruRefinement.RunIsFollowed | cache_lib.cc:80-117 | in every run what the cache knows of a key is what following the key through operations and replies tells |
| LruRefinement.ResidentIff | cache_lib.cc:80-117 | a key is resident after a run exactly when the run has touched it, nothing has removed it since, and at no touch since its size and the current sizes of the others touched since were over the capacity |
| LruRefinement.WorkingSetStays | cache_lib.cc:80-101 | in any run a stored key is still resident if its size and the largest sizes of the other keys touched since its own last touch fit the capacity |
| Erasure.StepErased | cache_lib.cc:43-146 | each operation with the stored data erased is the operation on the state with the data erased |
| Erasure.SameStep | cache_lib.cc:43-146 | so two states that agree but for the data have the same replies, and agree again if the other rows keep what they store |
| CacheLib.OwnsAfterFree | cache_lib.cc:43-49 | a freed buffer was never freed before and is not reachable from the table afterwards |
| CacheLib.OwnsAfterInsert | cache_lib.cc:53-58 | a new copy is owned by one row only |
| CacheLib.Cache.Free | cache_lib.cc:42-49 | erases the row, uncounts its bytes and frees its buffer, or stops at the assertion |
| CacheLib.Cache.Copy | cache_lib.cc:53-58 | a fresh buffer with the same bytes |
| CacheLib.Cache.constructor | cache_lib.cc:21-32 | an empty cache of the given capacity over the given evictor |
| CacheLib.Cache.Store | cache_lib.cc:60-104 | `set` once the copy is made; the other rows keep their buffers |
| CacheLib.Cache.Set | cache_lib.cc:51-104 | reply and new state are those of the state function, on the bytes and on the buffers; the other rows keep their buffers; an accepted copy is owned, a refused one is leaked, nothing freed comes back |
| CacheLib.Cache.StoreCopy | cache_lib.cc:60-104 | `set` once the copy is made, on the bytes and on the buffers |
| CacheLib.Cache.Guard | cache_lib.cc:60-79 | the guards refuse exactly as the state function does |
| CacheLib.Cache.MakeRoom | cache_lib.cc:80-90 | the loop terminates and comes to room or to a fault as the state function does |
| CacheLib.Cache.EvictOne | cache_lib.cc:82-89 | one turn of the loop shortens the queue and does what a turn of the state function does |
| CacheLib.Cache.FreeEvicted | cache_lib.cc:83-89 | an evicted key without a row is skipped; evicting the key being written resets the change in size |
| CacheLib.Cache.EvictAndInsert | cache_lib.cc:80-101 | the loop and what follows it |
| CacheLib.Cache.AddAndTouch | cache_lib.cc:95-101 | adds the row, checks the byte count and touches the key, as the state function does |
| CacheLib.Cache.AddRow | cache_lib.cc:96-97 | adds the row and its size, in unsigned arithmetic |
| CacheLib.Cache.FreeOld | cache_lib.cc:91-94 | frees the row of the key if there is one, and only that |
| CacheLib.Cache.Insert | cache_lib.cc:91-101 | replaces the row, counts it and touches the key |
| CacheLib.Cache.Get | cache_lib.cc:106-119 | the very buffer of the row and its size, or null and 0; a hit touches |
| CacheLib.Cache.Del | cache_lib.cc:121-129 | answers true exactly when there was a row, frees that row, leaves the evictor and all other rows alone; from a conserved state it never fails |
| CacheLib.Cache.SpaceUsed | cache_lib.cc:131-134 | the byte count |
| CacheLib.Cache.Reset | cache_lib.cc:136-146 | both loops terminate; the state is the reset state, with no row and a count of 0, and every owned buffer has been freed; from a conserved state it never fails |
| CacheLib.Cache.Clear | cache_lib.cc:139-142 | leaves an empty table and a count of 0 exactly when the byte count is at least the bytes in the table |
| CacheLib.Cache.FreeAll | cache_lib.cc:139-140 | frees every row exactly when the byte count is at least the bytes in the table, and then every buffer of the table; the evictor is left alone |
| CacheLib.Cache.Drain | cache_lib.cc:143-145 | the evictor is drained up to the first "" |
| CallSteps.TurnKeepsRest | cache_lib.cc:51-146 | no small step of a call changes the outcome the whole call will have |
| CallSteps.TurnGetsCloser | cache_lib.cc:80-146 | every small step brings a call closer to giving the mutex back |
| CallSteps.TurnKeepsConserved | cache_lib.cc:43-99 | the byte count is right between any two steps of a call |
| Threads.StepKeepsInv | cache_lib.cc:161-209 | mutual exclusion, nested locking, agreement with the sequential run, replies and times are kept by every step of every thread |
| Threads.Linearizable | cache_lib.cc:161-209 | in every interleaving of all five locked calls, `space_used` among them, each reply is the sequential one in the order of taking the mutex, this order respects real time, and between calls the state is the sequential one |
| Threads.AbortsLikeTheRun | cache_lib.cc:161-209 | the program aborts only where the sequential run of the recorded operations does |
| Threads.OnlyMutexBlocks | cache_lib.cc:161-209 | in every reachable state a thread can ask for any call, take the mutex exactly when it is free, go on inside, and return |
| ThreadHistory.RecordIsHistory | cache_lib.cc:161-209 | in every interleaving each thread's calls in the record, with the one it waits with, are those it asked for, in order and with their times; the record is in the order of taking the mutex; every return is noted; a thread outside a call has none open |
| ThreadRuns.EveryRunIsPossible | cache_lib.cc:161-209 | every sequential run that does not abort is the record of an interleaving in which each call has returned with the run's reply |
| Threads.NoDeadlock | lru_evictor.cc:37-38 | in every reachable state with a call under way, some thread can go on |
| Threads.OwnerFinishes | cache_lib.cc:161-209 | in every interleaving the owner of the mutex works at most as many steps as the queue and the table allow before it gives the mutex back |
| Threads.MemoryInEveryState | cache_lib.cc:43-99 | in every reachable state of the threads, also inside calls, the byte count is the bytes in the table and at most the capacity |
| Codec.FindIsFirst | cache_client.cc:105-106 | the search answers the first occurrence, or -1 exactly when there is none |
| Codec.ValueMarkFound | cache_client.cc:105 | the value mark is found where the server printed it, whatever the key |
| Codec.EndMarkOccurs | cache_client.cc:106 | all the places at which the end mark occurs in a printed body |
| Codec.ParseFramed | cache_client.cc:101-116 | what the client reads from any printed body, in every case |
| Codec.BodyRoundTripIff | cache_server.cc:210-213 | the client reads back the value with its NUL exactly when the value needs no escape and neither key nor value has the end mark behind its opening quote |
| Codec.PlainRoundTripIff | cache_client.cc:101-114 | where neither text needs an escape the value comes back exactly when neither begins with `}` |
| Codec.PutRoundTripIff | cache_server.cc:220-246 | the server takes a PUT for the call that was made exactly when the key has no slash and the value ends in NUL |
| JsonReader.ObjectIsRead | cache_server.cc:210-213 | a reader that undoes the escapes finds in the printed body the two members with the texts printed, for all texts |
| JsonReader.EscapesAreShort | cache_server.cc:210-213 | a character is escaped only if it has to be, in its short form if it has one, else with lower-case digits |
| ServerContract.RefusedIff | cache_server.cc:184-306 | a request is refused, or ends in an escaping exception, exactly when it makes no sense |
| ServerContract.RefusalChangesNothing | cache_server.cc:184-306 | a refusal, a miss and an escaping exception leave the cache as it is |
| ServerContract.RowChanges | cache_server.cc:184-306 | a row that is gone was deleted by its own DELETE, reset by POST `/reset`, or made way for a PUT; a row that is new or different was PUT under its key |
| ServerContract.ReportsBytes | cache_server.cc:174-182 | every answer without a body carries the bytes in the table after the request |
| ServerContract.GetAnswers | cache_server.cc:186-216 | a hit is answered with a body in which a JSON reader finds the key asked for and the text before the first NUL; a miss names the key; the rows stay |
| ServerContract.DeleteAnswers | cache_server.cc:254-275 | exactly the row of the key is gone, and the bytes reported are those left |
| ServerContract.ResetAnswers | cache_server.cc:285-297 | no row is left and 0 is reported |
| ServerContract.HeadAnswers | cache_server.cc:277-283 | the bytes in the table, for every target, and no change |
| ServerContract.PutAnswers | cache_server.cc:218-252 | a PUT is a `set` of the characters behind the second slash and their NUL, with the size cut to 32 bits; a refused value is answered like an accepted one |
| ServerContract.PutStores | cache_server.cc:218-252 | a value that fits is stored as it was put; one that does not is dropped without a word or fails the assertion |
| ServerContract.PutThenGet | cache_server.cc:186-252 | a value that fits is read back from the answer to a GET, under its key and with every character as it was put, also those that were escaped |
| Server.HandleRequest | cache_server.cc:184-306 | response and cache are those of the handler's state function, for every method and target; `ServerContract` says what that function does |
| Server.PutRefusalIff | cache_server.cc:221-240 | a PUT is refused exactly when its target does not begin with a slash or has no second one, an exception escapes exactly on an empty target; neither changes the cache |
| Server.HandleGet | cache_server.cc:186-216 | the heap does what the state function does to a GET, with the touch on a hit (`ServerContract.GetAnswers`) |
| Server.HandleDelete | cache_server.cc:254-275 | the heap does what the state function does to a DELETE (`ServerContract.DeleteAnswers`) |
| Server.HandlePost | cache_server.cc:285-297 | the heap does what the state function does to a POST (`ServerContract.ResetAnswers`, `ServerContract.RefusedIff`) |
| Server.HandlePut | cache_server.cc:218-252 | splits the target, stores value and NUL, reports the space used |
| Server.StoreValue | cache_server.cc:242-249 | passes value and NUL to the cache, with the size cut to 32 bits |
| Client.ReadBody | cache_client.cc:101-117 | the copied buffer, its size, or null, as the searches define |
| Client.RemoteHitIff | cache_server.cc:203-214 | a hit comes back through the client as it is exactly when its bytes are carried by the wire format and the key does not meet the end mark |
| Client.RemoteStepIsDirectIff | cache_client.cc:85-147 | a call through the client does to the cache what the direct call does, and shows the caller the same exactly when it is no hit whose key meets the end mark |
| Client.RemoteRunIsDirectIff | cache_client.cc:85-147 | every run through the client ends in the state of the run of direct calls, and shows the same exactly when no hit's key meets the end mark |

## Left out

- CacheLib.Cache.Reset: does not state which rows are left after a failed assertion in `free`, because the hash table is freed in no particular order; the reply is stated, and from a conserved state the assertion never fails.
- Server.HandleRequest: does not state the cache after a fault of the cache, because the process has aborted.
- Client.RemoteRunIsDirectIff: is about values that the wire format carries, under keys without a slash (`Client.RemoteHitIff` and `Codec.PutRoundTripIff` say what happens to others); does not compare the result of `del`, because the client always answers false (`cache_client.cc:125-126`); a client `set` of size 0, which reads 2^32-1 bytes (`cache_client.cc:87`), is not a call of the model.
- Codec.BodyRoundTripIff: is about strings of characters and assumes that the JSON library prints an object compactly with its keys in order and writes the escapes of section 7 of RFC 8259 in their short forms and `\u00xx`; UTF-8 validation is not modelled, the library is not part of this model. Positions in a body are integers, not cut to `int` (`cache_client.cc:105-106`).
- Threads.Linearizable: gives a get the identity of a buffer and its size; what another thread does to the bytes behind it after the mutex is given back (`cache_server.cc:204-212`) is not modelled.
- Client.ReadBody: gives positions and the returned size as unbounded integers, because bodies of 2^31 bytes and more are not what it is about; the source cuts positions to `int` and the size to `uint32_t` (`cache_client.cc:105-108`).
- Hashing, load factors and iteration order of `std::unordered_map`: a table is a finite map.
- The constructors of the "wrong" side, and the destructors: the evictor is assumed to outlive the cache and to serve no other cache, which `main` (`cache_server.cc:820-821`) does not respect.
- HTTP itself: Boost.Beast, sessions, timeouts, headers other than the space used; targets and bodies reach the other side unchanged.
- The text of the header that carries the space used, and its parsing in the client's `get_current_mem` (`cache_client.cc:129-139`): the response carries the number itself.
- Failing allocation, and the text that `set` prints when it refuses a value.
- Workload generator, benchmark and statistics: random sampling, timing and plotting.
