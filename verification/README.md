# Verified models of the systems coursework programs

A Dafny project that models the algorithms of this repository whose behaviour is hard to see from one function body,
and proves what they guarantee for all inputs, all runs and all interleavings. It covers

- the bounded-buffer program of `week7`: any number of producers and consumers, any capacity and any limit, over one
  ring buffer, one mutex, one condition variable with broadcast and the counter lock (`RingBuffer`, `Protocol`,
  `ProtocolSafety`, `ProtocolProgress`, `ProtocolJoin`);
- the message cache of `practicum1`: a linked list between sentinels, an open-addressing table of pointers to its
  nodes, and write-through to disk, down to the pointers (`LruPolicy`, `LruCompetitive`, `LruTightness`, `ProbeTable`,
  `CacheModel`, `CacheRuns`, `LruCache`);
- the two linear congruential generators of `week6` and `week3` (`FullPeriod`, `Generators`);
- the permission table of `practicum2` under concurrent WRITE requests (`Permissions`);
- the process queue of `week5` (`PriorityQueue`);
- the encryption pipeline of `week6`: string queue, chunk files, line cipher (`StringQueue`, `Cipher`, `Pipeline`,
  `StringsFile`), and the Polybius codec (`Polybius`).

`Wrappers`, `Arithmetic` and `Members` hold the facts about options, products and remainders, and sets that the others
share. `dafny verify dfyconfig.toml` checks the whole project.

## How the parts fit

**Bounded buffer.** A state holds every thread's program counter, the two lock owners, the ring and the two totals. One
step is one atomic action of one thread; a wait releases the mutex and sleeps in one action, a broadcast wakes all
waiters, a woken thread takes the mutex again, and spurious wakeups are allowed. `ProtocolSafety.InvReachable` gives an
invariant of every reachable state; the theorems after it read off what it means. `ProtocolProgress` bounds the length
of every run and says exactly where runs end. `ProtocolJoin` shows that the printed "All threads joined" is not
guaranteed: any proper subset of the consumers can be left waiting for ever, and all threads always join exactly when
there is one consumer. The ring is also given as the C struct updated in place (`RingBuffer.CircularQueue`).

**Message cache.** `LruPolicy` and `LruCompetitive` are about the recency order alone, for any capacity: stack
inclusion, the exact condition for a hit, and at most k times the misses of any other policy; `LruTightness` shows that
no smaller factor will do. `ProbeTable` is about the table alone. Evicting an id empties its slot and leaves no mark, so
a later search can stop there too early and miss an id that is cached: the id is hidden. `ProbeTable.ReplaceExact` is the
exact condition under which an eviction hides none. `CacheModel` puts list, table, messages and disk together for one
operation, `CacheRuns` for whole runs, and `LruCache.MessageCache` is the C code on nodes and pointers, each method
proved to lead to the value `CacheModel` gives.

A hidden id does no harm until it is touched: list, table, messages, disk and counters stay in step exactly as long as no
operation accesses or evicts a hidden id (`CacheModel.PutSoundExactly`, `CacheModel.GetSoundExactly`), and every run up
to there answers and counts as it should (`CacheRuns.RunRefines`, `CacheRuns.GetReturnsLatest`). No id is ever hidden
before the 17th different id is accessed, whatever the ids, nor at all among ids that do not collide modulo 103, such as
those of `practicum1/main.c`. `CacheRuns.CollisionHidesAnId` is a run of 17 puts that hides one. Ids are natural numbers
throughout.

**Generators.** `FullPeriod` proves for modulus 2^k, a mod 4 = 1 and c odd that any 2^k consecutive steps visit every
state once, that no other constants do this, and how often each value of a range is drawn, exactly. `Generators` has the
two C generators with their word sizes.

**Permission table.** The WRITE handler is a sequence of up to three atomic calls; `Permissions` proves what holds in
every interleaving of any number of requests, the full table and over-long paths included, and that the first request to
record a path decides the answer to all requests for it. `practicum2/README.md:47-52`
presents `WRITE ... RO` on a new file as an upload that works, while the code at `practicum2/server.c:75-84` records the
permission before it tests it and turns the request away. The model follows the code:
`Permissions.FirstReadOnlyWriteIsRejected`.

**Process queue.** Removing until the queue is empty gives the one sequence that is ordered by decreasing priority and
keeps the queue order within each priority; in any mix of push, pop and remove each priority is served first come first
served.

**Pipeline and codec.** Chunking and the 255-character `fgets` pieces do not show in the cipher's output. Loading the
file is what can change it: the run enciphers exactly its input if and only if the input has no NUL and every line,
newline included, has at most 255 characters. The Polybius round trips are stated for any 5 by 5 table with the exact
condition on the table.

## Model

| member | source | states |
|---|---|---|
| RingBuffer.PutAppends | week7/queuep.c:29-36 | a put appends to the queued integers when there is room and otherwise drops the value silently |
| RingBuffer.GetTakesOldest | week7/queuep.c:38-46 | a get takes the oldest integer; on an empty ring it answers -1 and changes nothing |
| RingBuffer.CircularQueue.constructor | week7/queuep.c:19-27 | a new ring of the given capacity is empty |
| RingBuffer.CircularQueue.QueuePut | week7/queuep.c:29-36 | the in-place update of buffer, tail and size is exactly Put, and appends or drops |
| RingBuffer.CircularQueue.QueueGet | week7/queuep.c:38-46 | the in-place update of head and size is exactly Get, and returns the oldest integer or -1 |
| RingBuffer.CircularQueue.QueueEmpty | week7/queuep.c:48-50 | true exactly when nothing is queued |
| RingBuffer.CircularQueue.QueueFull | week7/queuep.c:52-54 | true exactly when as many integers are queued as the capacity |
| Protocol.BroadcastWakesAll | week7/pqueuep.c:46-66 | after a broadcast no thread waits: each waiter has to take the mutex again, with the number it had in hand, and no other thread but the one that broadcasts has moved |
| Protocol.NextPC | week7/pqueuep.c:31-71 | which steps take and release each lock, and which put a number into a hand or out of it |
| Protocol.ReachableStep | week7/pqueuepmain.c:25-78 | every possible action, and every spurious wakeup, of a reachable state leads to a reachable state |
| ProtocolSafety.InvStep | week7/pqueuep.c:31-71 | the invariant is kept by every action of every thread and by spurious wakeups |
| ProtocolSafety.InvReachable | week7/pqueuepmain.c:25-78 | the invariant holds in every reachable state, for any number of threads, capacity and limit |
| ProtocolSafety.MutualExclusion | week7/pqueuep.c:32-48 | no two threads are in the critical sections of one lock |
| ProtocolSafety.EveryNumberInOnePlace | week7/pqueuepmain.c:28-69 | each claimed number is in exactly one place (a producer's hand, the ring, a consumer's hand, counted), no other number is anywhere, and consumed <= produced <= limit |
| ProtocolSafety.DeliversInPutOrder | week7/pqueuep.c:35-60 | in every reachable state the values got followed by the ring contents are the values put; queue_put never drops and queue_get never answers -1 |
| ProtocolSafety.BoundedOvertaking | week7/pqueuepmain.c:30-41 | for every q from 1, the q-th number put is at most q + producers - 1 and larger than all its producer put before, and the q-th number got is the q-th put |
| ProtocolSafety.NoLostWakeupStep | week7/pqueuep.c:35-48 | kept by every event: a consumer waits only on an empty ring or before a put's broadcast, a producer only on a full ring or before a get's broadcast |
| ProtocolSafety.OneSideWaits | week7/pqueuep.c:35-68 | outside the windows before a broadcast, producers and consumers never wait together |
| ProtocolProgress.MeasureStep | week7/pqueuep.c:31-71 | every action lowers the measure by at least one, broadcasts that wake everybody included; a spurious wakeup raises it by at most four |
| ProtocolProgress.RunsAreBounded | week7/pqueuepmain.c:25-78 | every run has at most StepBound actions plus five for each spurious wakeup, so without them every run ends |
| ProtocolProgress.HoldersAct | week7/pqueuepmain.c:55-67 | the locks are never nested: when nobody can act, both locks are free and every thread waits or has exited |
| ProtocolProgress.NoProducerStuck | week7/pqueuep.c:35-37 | no producer is left waiting when nobody can act |
| ProtocolProgress.StuckStates | week7/pqueuepmain.c:25-78 | nobody can act exactly when all producers have exited and each consumer has exited or waits; then all numbers 1..limit were counted once, the ring is empty and a consumer has exited |
| ProtocolJoin.WhoIsLeftWaiting | week7/pqueuepmain.c:53-64 | a set of threads can be left waiting for ever exactly when it is a proper subset of the consumers |
| ProtocolJoin.AllJoinIffOneConsumer | week7/pqueuepmain.c:91-98 | all threads exit in every run exactly when there is one consumer |
| LruPolicy.StackInclusion | practicum1/cache.c:69-103 | the cache holds the most recent ids of the recency order, whatever the capacity |
| LruPolicy.LargerIsNoWorse | practicum1/cache.c:84-134 | a smaller cache is the most recent part of a larger one, and a larger one never misses more |
| LruPolicy.HitsExactlyWhen | practicum1/cache.c:112-134 | an id seen before is cached exactly when fewer than capacity different other ids were accessed since |
| LruPolicy.NeverSeenMisses | practicum1/cache.c:127-130 | an id never accessed is not cached |
| LruPolicy.TouchMembers | practicum1/cache.c:150-172 | who is cached after an access: the id itself and the others except an evicted least recent one |
| LruCompetitive.Competitive | practicum1/cache.c:84-134 | from empty caches of equal capacity k, LRU misses at most k times as often as any demand replacement policy |
| LruTightness.LruMissesAll | practicum1/cache.c:84-134 | on cyclic accesses to k + 1 ids LRU with k places misses every time |
| LruTightness.FactorIsBestPossible | practicum1/cache.c:84-134 | on n such accesses a policy with k places misses k + ⌊(n - 1) / k⌋ times and LRU n times, so the factor k cannot be improved |
| ProbeTable.SearchEnds | practicum1/cache.c:113-118 | while fewer ids are listed than there are slots every probe ends, at the id's own slot or at an empty one |
| ProbeTable.InsertKeeps | practicum1/cache.c:169-171 | putting a new id where its search ended makes it findable and keeps findable every id that was |
| ProbeTable.ReplaceClean | practicum1/cache.c:92-97 | when the id evicted is found, the table then holds exactly the new ids, each once, and no slot is left over |
| ProbeTable.FoundAfterReplace | practicum1/cache.c:92-97 | after emptying one slot and filling another, an id is found exactly when its search did not pass over the emptied slot |
| ProbeTable.ReplaceExact | practicum1/cache.c:145-171 | eviction without a mark, then insertion at the slot found before it, keeps the table right exactly when no remaining or new id's search passes over the emptied slot |
| ProbeTable.AllAtHome | practicum1/cache.c:36-38 | ids with different hashes that are all found are all in the slots they hash to |
| ProbeTable.NoCollisionNoCrossing | practicum1/cache.c:36-38 | on ids with different hashes, all at home, every replacement is safe |
| CacheModel.PutOrder | practicum1/cache.c:144-173 | a put of an id that is not hidden changes the list as an LRU access, and takes the update branch exactly when the id is listed |
| CacheModel.PutMembers | practicum1/cache.c:144-173 | the list stays within 16 distinct ids; who is on it after a put |
| CacheModel.PutCoherent | practicum1/cache.c:175-175 | after a put of an id that is not hidden every cached message equals the one on disk |
| CacheModel.PutSoundExactly | practicum1/cache.c:144-176 | a put keeps list, table, messages and disk in step exactly when neither the id put nor the one it evicts is hidden |
| CacheModel.PutOkExactly | practicum1/cache.c:144-176 | a put on a cache without hidden ids leaves none exactly when its eviction is safe |
| CacheModel.UnsafePutHidesAnId | practicum1/cache.c:93-97 | after an unsafe put everything is still in step, but some listed id is not found |
| CacheModel.GetSoundExactly | practicum1/cache.c:112-134 | a get keeps everything in step exactly when it touches no hidden id |
| CacheModel.GetOkExactly | practicum1/cache.c:112-134 | a get on a cache without hidden ids leaves none exactly when the put it may make is safe |
| CacheModel.GetAnswer | practicum1/cache.c:112-134 | a get answers what is on disk and leaves the disk as it is, for a hidden id too |
| CacheModel.GetEffect | practicum1/cache.c:118-134 | a get of an id that is not hidden refreshes it if it exists and counts a hit exactly when it is listed, otherwise a miss |
| CacheRuns.RunRefines | practicum1/cache.c:112-176 | after any run that touches no hidden id the list is the LRU order of the ids accessed, the counters are right, and the disk is the plain disk with the puts applied |
| CacheRuns.GetReturnsLatest | practicum1/cache.c:112-176 | a get after such a run, even of a hidden id, answers the latest put of its id, else the initial file, and changes nothing on disk |
| CacheRuns.ReferenceDiskIsLatest | practicum1/message.c:41-99 | the disk holds the latest put of each id, else the initial file |
| CacheRuns.IntactWithoutEviction | practicum1/cache.c:84-85 | any run that accesses at most 16 different ids hides none, colliding or not |
| CacheRuns.IntactWithoutCollisions | practicum1/cache.c:36-38 | any run over ids with different hashes hides none |
| CacheRuns.CollisionHidesAnId | practicum1/cache.c:92-97 | after puts of 0, 103, 2, ..., 15 and then 16, id 103 is on the list and not found, and a get of it breaks the list |
| CacheRuns.NumberedDoNotCollide | practicum1/cache.c:187-187 | the ids 1 to 103 have different hashes |
| CacheRuns.AskAllStored | practicum1/cache.c:184-191 | the misses of gets of stored ids are those of LRU after the ids cached at the start |
| CacheRuns.ExperimentMisses | practicum1/cache.c:184-191 | from an empty cache, gets of stored messages miss at most 16 times as often as under any policy |
| LruCache.MessageCache.constructor | practicum1/cache.c:48-56 | two linked sentinels, an empty table and zero counters are the empty cache on the given disk |
| LruCache.MessageCache.RemoveNode | practicum1/cache.c:61-64 | unlinking takes one node out of the chain and keeps next and prev inverse |
| LruCache.MessageCache.AddNodeToTail | practicum1/cache.c:69-75 | linking puts a node just before the tail and keeps next and prev inverse |
| LruCache.MessageCache.Probe | practicum1/cache.c:113-116 | the probe loop ends at the slot of the key or at the empty slot that ends its search |
| LruCache.MessageCache.MoveToTail | practicum1/cache.c:122-123 | relinking a hit moves its id to the most recent place and nothing else |
| LruCache.MessageCache.EvictLru | practicum1/cache.c:87-97 | the first node leaves the list and its slot, and no slot points to it any more |
| LruCache.MessageCache.EvictIfNeeded | practicum1/cache.c:84-103 | below 16 entries nothing happens; otherwise list, table and counter lose the least recent id |
| LruCache.MessageCache.UpdateExisting | practicum1/cache.c:150-155 | the cached message is overwritten and becomes the most recent |
| LruCache.MessageCache.InsertNew | practicum1/cache.c:156-173 | evict, link a new node and point the slot found before the eviction to it |
| LruCache.MessageCache.StoreMsg | practicum1/message.c:41-68 | the message becomes the file named after its id |
| LruCache.MessageCache.PutMsg | practicum1/cache.c:144-176 | unless it touches a hidden id, pointers, table, counter and disk end up as Put says; from no hidden ids it leads to none exactly when the eviction was safe |
| LruCache.MessageCache.Hit | practicum1/cache.c:118-125 | a hit counts, moves the node to the tail and returns its message |
| LruCache.MessageCache.Load | practicum1/cache.c:127-133 | a miss counts; an existing file is put into the cache and returned, a missing one is answered with nothing |
| LruCache.MessageCache.GetMsg | practicum1/cache.c:112-134 | unless it touches a hidden id, result and new state are those of Get; from no hidden ids it leads to none exactly when its put was safe |
| LruCache.MessageCache.TestCache | practicum1/cache.c:184-191 | from any cache without hidden ids, over ids with different hashes, stored or not, the experiment reports the hits and misses of that many gets in a row |
| FullPeriod.GeometricDivides | week3/genrand.c:22-27 | 2^k divides 1 + a + ... + a^(n-1) exactly when it divides n, for a mod 4 = 1 |
| FullPeriod.ClosedForm | week3/genrand.c:22-27 | the n-th state in closed form |
| FullPeriod.ReturnsAfter | week3/genrand.c:22-27 | the state comes back after n steps exactly when 2^k divides n |
| FullPeriod.StatesEqual | week3/genrand.c:22-27 | two states of a run are equal exactly when whole periods lie between them |
| FullPeriod.VisitsAll | week3/genrand.c:22-27 | any 2^k consecutive steps visit every state |
| FullPeriod.ExactlyOncePerPeriod | week3/genrand.c:22-27 | each state comes up at exactly one of any 2^k consecutive steps |
| FullPeriod.FullPeriodExactly | week3/genrand.c:22-27 | for k >= 2, starting at 0, every state comes up at exactly one of the 2^k steps if and only if a mod 4 = 1 and c is odd |
| FullPeriod.EvenDraw | week3/genrand.c:30-37 | over any 2^k consecutive draws from r values, value v comes up 2^k / r times, once more when v < 2^k mod r |
| Generators.Lcg31.LcgRand | week6/multi_process.c:28-32 | wrapping at 64 bits and masking 31 bits takes any unsigned long state x to (1103515245 x + 12345) mod 2^31 |
| Generators.Lcg31.LcgRandRange | week6/multi_process.c:35-39 | the draw is in minVal..maxVal, at the new state modulo the range from minVal |
| Generators.Lcg31.GenerateRandomString | week6/multi_process.c:44-51 | a NUL-terminated string of lower-case letters of a drawn length, one generator step for each character, the rest of the buffer untouched |
| Generators.LcgRandFullPeriod | week6/multi_process.c:25-32 | lcg_rand visits each of its 2^31 states exactly once in any 2^31 steps |
| Generators.LcgRandRangeEven | week6/multi_process.c:35-39 | how often lcg_rand_range gives each value in any 2^31 draws, exactly |
| Generators.Lcg32.Lcg | week3/genrand.c:22-27 | unsigned wrap-around takes x to (1664525 x + 1013904223) mod 2^32 |
| Generators.Lcg32.GenRand | week3/genrand.c:30-37 | bounds in either order; the draw lies between them, through the unsigned conversion of negative bounds |
| Generators.LcgFullPeriod | week3/genrand.c:22-27 | lcg visits each of its 2^32 states exactly once in any 2^32 steps |
| Generators.GenRandEven | week3/genrand.c:30-37 | how often genRand gives each value in any 2^32 draws, exactly |
| Permissions.FileTable.GetFilePermission | practicum2/server.c:24-35 | the permission of the first entry with that name, read-write when there is none |
| Permissions.FileTable.SetFilePermission | practicum2/server.c:37-54 | a name that is in the table, or a table of 100 entries, leaves it as it is; otherwise one entry is appended, with the path cut to 255 characters and the permission |
| Permissions.LookupFirst | practicum2/server.c:27-32 | a lookup finds the first entry of that name, and nothing exactly when there is none |
| Permissions.ReadOnlyAsked | practicum2/server.c:56-61 | read-only is asked for exactly by a present permission of the two letters R and O, each in either case |
| Permissions.HandleWrite | practicum2/server.c:75-87 | the permission part of a WRITE on the table in place: an entry decides the answer; a new path is turned away exactly when it has at most 255 characters, the table fewer than 100 entries, and the permission is R or r followed by O or o |
| Permissions.RecordedSettles | practicum2/server.c:37-54 | recording an entry settles its path for good and changes no settled lookup |
| Permissions.RunKeeps | practicum2/server.c:66-87 | the invariant and every settled lookup are kept along every interleaving |
| Permissions.EntryIsPermanent | practicum2/server.c:40-45 | a path with an entry looks up the same in every later state |
| Permissions.AcceptedStaysReadWrite | practicum2/server.c:75-87 | once a WRITE was accepted its path is read-write for ever, even with the table full |
| Permissions.OneAnswerPerPath | practicum2/server.c:75-87 | in no interleaving is one WRITE of a path accepted and another rejected |
| Permissions.ReadOnlyNeverAccepted | practicum2/server.c:80-84 | a path that looks up read-only never had and never gets an accepted WRITE |
| Permissions.FirstRecordWins | practicum2/server.c:37-54 | in every interleaving the first request to record a path while the table has room fixes its lookup |
| Permissions.FirstRecorderDecides | practicum2/server.c:75-87 | in every interleaving from an empty table, a finished WRITE was rejected exactly when the first request to record its path asked for read-only |
| Permissions.AloneIsARun | practicum2/server.c:75-87 | a WRITE that runs alone is one of the interleavings the other results are about |
| Permissions.AloneAnswer | practicum2/server.c:75-87 | when an undisturbed WRITE is rejected: the path is read-only, or it is new, asks for RO and can be recorded |
| Permissions.LoneWriteRejected | practicum2/server.c:75-87 | the answer to an undisturbed WRITE in the terms of its path, the table and the characters of its permission |
| Permissions.FirstReadOnlyWriteIsRejected | practicum2/server.c:75-84 | the first WRITE with RO on a new path is rejected |
| PriorityQueue.Best | week5/queue.c:72-83 | the scan finds the first place of highest priority |
| PriorityQueue.DrainIsTheStableSort | week5/queue.c:67-105 | removing until empty gives the one sequence that is ordered by decreasing priority and keeps the queue order within each priority |
| PriorityQueue.RemovingAll | week5/queue.c:67-105 | after any run, removing as often as processes are queued hands them out in that order and leaves nothing |
| PriorityQueue.FirstComeFirstServed | week5/queue.c:17-105 | in every mix of push, pop and remove, the processes of one priority served and then queued are those pushed, in order |
| PriorityQueue.Queue.constructor | week5/queue.c:4-14 | a new queue is empty |
| PriorityQueue.Queue.PushQueue | week5/queue.c:17-40 | appends, and keeps head, tail, prev, next and size in step |
| PriorityQueue.Queue.PopQueue | week5/queue.c:43-63 | hands out the first process, null on an empty queue |
| PriorityQueue.Queue.FindBest | week5/queue.c:72-83 | the loop ends at the first node of highest priority |
| PriorityQueue.Queue.Unlink | week5/queue.c:85-97 | any node, first, last or between, is cut out of the list |
| PriorityQueue.Queue.RemoveProcess | week5/queue.c:67-105 | hands out the first process of highest priority and keeps the others in order, null on an empty queue |
| PriorityQueue.Queue.GetQueueSize | week5/queue.c:108-111 | the number of queued processes |
| StringQueue.Queue.constructor | week6/queue.c:6-10 | a new queue is empty |
| StringQueue.Queue.Enqueue | week6/queue.c:12-38 | appends the string, and keeps front, rear, next and size in step |
| StringQueue.Queue.Dequeue | week6/queue.c:40-53 | takes the first string, null on an empty queue |
| StringQueue.Queue.IsEmptyQueue | week6/queue.c:55-57 | true exactly when nothing is queued |
| StringQueue.Queue.SizeQueue | week6/queue.c:59-61 | the number of queued strings |
| StringQueue.Queue.FreeQueue | week6/queue.c:63-68 | takes everything out and resets both ends |
| Cipher.ShiftCharBy3 | week6/cipher.c:30-34 | a to w and A to W move up by 3, x to z and X to Z come round to the start of their case, and no other character changes |
| Cipher.ShiftRecovers | week6/cipher.c:30-34 | a shift by 23 undoes the shift by 3 |
| Cipher.Piece | week6/cipher.c:27-27 | fgets takes up to and including the first newline and at most 255 characters |
| Cipher.CipherLine | week6/cipher.c:29-35 | the in-place loop shifts the letters up to the NUL, character by character as above, and leaves the rest of the buffer |
| Cipher.CipherFile | week6/cipher.c:26-38 | the output is the concatenation of the enciphered pieces; for a file without NUL it is the file shifted character by character |
| Cipher.CipheredIsShifted | week6/cipher.c:26-38 | the output is the shift of the whole file, the 255-character splits never showing, exactly when the file has no NUL |
| Pipeline.ChunksExactly | week6/multi_process.c:128-169 | n strings make ⌈n / size⌉ chunks, all but the last of that size, which together are the queue |
| Pipeline.ChunkingPreserves | week6/multi_process.c:102-172 | the outputs put together are the shift of the queue's whole text, whatever the chunk size |
| Pipeline.ReloadExactly | week6/multi_process.c:77-96 | loading a file and writing it out line by line keeps it exactly when it has no NUL and its lines fit the buffer |
| Pipeline.EncryptExactly | week6/multi_process.c:191-201 | the whole run enciphers its input, and 23 more recovers it, exactly when the input has no NUL and its lines fit |
| Pipeline.LoadedKeepsCharacters | week6/multi_process.c:85-93 | whatever the lengths of the lines and the end of the file, loading a text without NUL drops its newlines and nothing else |
| Pipeline.LoadStringsIntoQueue | week6/multi_process.c:77-96 | the queue gets the pieces of the file without their newlines; for a file without NUL the strings queued are, put together, its text without newlines |
| Pipeline.WriteChunkToFile | week6/multi_process.c:102-119 | moves the first count strings, or all there are, from the queue to the file, one line each |
| Pipeline.ProcessInChunks | week6/multi_process.c:128-172 | one output for each chunk and an empty queue; a chunk size below one stops at once with the queue as it was |
| Pipeline.Encrypt | week6/multi_process.c:191-201 | the encrypt command's outputs for a file, in chunks of 100 |
| StringsFile.QueueRoundTrip | week6/multi_process.c:77-119 | a queue written out and loaded again is the same exactly when its strings have no NUL, no newline and at most 254 characters |
| StringsFile.GenerateStringsFile | week6/multi_process.c:56-72 | the file holds 10000 lines; each takes its length, 5 to 10, from one step of the generator and its lower-case letters from one step each, starting where the line before stopped, and the generator ends after the last |
| StringsFile.GeneratedFileEncrypts | week6/multi_process.c:188-201 | a generated file becomes 100 outputs that together are its shift |
| Polybius.FoldIs | week6/polybius.c:22-23 | lower case becomes upper case, j and J become I, everything else stays |
| Polybius.RowCode | week6/polybius.c:25-31 | a row writes the digits of the row and of the first match in it, or nothing |
| Polybius.EncodedAppend | week6/polybius.c:21-33 | a text is encoded character by character |
| Polybius.CellEncoded | week6/polybius.c:22-33 | with a proper table a character is encoded as the row and column, from 1, of its upper case, J as I |
| Polybius.OtherDropped | week6/polybius.c:24-32 | with a proper table of upper-case letters a character that is no letter is not encoded |
| Polybius.StandardCode | week6/polybius.c:7-15 | the code of each letter, in either case, in the built-in table |
| Polybius.EncodedFitsExactly | week6/polybius.c:18-36 | the encoder stays within 2n cells on every text of n characters exactly when no character it looks for stands in two rows of the table |
| Polybius.DecodeOfEncodeExactly | week6/polybius.c:18-50 | decoding an encoded text gives it upper-cased, J as I, unknown characters dropped, for all texts exactly under the same condition |
| Polybius.DecodeGivesLetters | week6/polybius.c:18-50 | with a proper table of upper-case letters, decoding an encoded text gives its letters in upper case, J as I |
| Polybius.EncodeOfDecodeExactly | week6/polybius.c:18-50 | encoding a decoded text gives back every even-length text of digits 1 to 5 exactly when the cells differ and are characters the encoder looks for |
| Polybius.AlphabetIsWhole | week6/polybius.c:7-15 | such a table of upper-case letters holds all of them but J |
| Polybius.StandardIsAlphabet | week6/polybius.c:7-15 | the built-in table is such a table |
| Polybius.PbEncode | week6/polybius.c:18-36 | whenever the code text fits, the buffer of 2n + 1 cells is not overrun and ends up with the code text and a NUL |
| Polybius.EncodeRow | week6/polybius.c:25-31 | break leaves the row after the first match, not the table |
| Polybius.PbDecode | week6/polybius.c:39-50 | the buffer holds a NUL after the characters that the pairs of digits point to by row and column; an odd last digit is ignored |

## Left out

- Sockets, framing, argument parsing and the client of practicum2; `open`, `flock` and file contents on the server, so
  nothing is said about whether writes are serialised (`practicum2/server.c:92-95` truncates before it locks).
- RM and GET requests of practicum2: RM reads the permission without recording one, so no permanence is claimed for it.
- Memory allocation failure, `free`, file errors, `printf`, `usleep`, `fork`, `exec` and `wait`: operations succeed, the
  disk is a map, a file is the string it holds, and a child has written its output when the parent goes on.
- LruCache.MessageCache.PutMsg: requires that neither the id put nor the one evicted is hidden. The C code goes on in
  those cases with two nodes for one id, or with a slot that points to freed memory (`practicum1/cache.c:93-101`);
  `CacheModel.PutSoundExactly` says that these are the only cases, and the model ends there.
- LruCache.MessageCache.GetMsg: requires the same of the put it may make.
- Negative ids, whose C remainder is a negative index: ids are natural numbers.
- Aliasing of returned messages: the C code returns a pointer into the cache on a hit and a separate copy on a miss; the
  model returns the message.
- Fixed-width fields of a message and their truncation in `create_msg`, timestamps and `rand()`: messages and the ids
  accessed are arbitrary inputs.
- LruCache.MessageCache.EvictIfNeeded: leaves out the check for an empty list (`practicum1/cache.c:88`), which a full
  cache never meets.
- LruCache.MessageCache.InsertNew: leaves out the second probe loop (`practicum1/cache.c:170`), which never moves because
  the slot was empty before the eviction.
- LruCache.MessageCache.Probe: the probe loop that the C code repeats in three functions is one method here, and put_msg
  and get_msg_from_cache_or_disk are split into the methods for their branches.
- ProtocolProgress.RunsAreBounded: a run with infinitely many spurious wakeups is not excluded; the bound counts them.
- The bounded-buffer threads are a transition system and not Dafny methods, since Dafny has no threads. Initialisation
  of the locks and the unused `capacity` copy in the monitor are not part of it.
- Overflow of the counters and sizes held in a C int; the limit of the program is 30.
- PriorityQueue.Queue.RemoveProcess: a queued process is a value, so a caller that changes a process after pushing it is
  not modelled.
- `destroy_queue` of week5 and `queue_size` of week7: one-line accessors and deallocation.
- The hit ratio of `print_cache_stats` (floating point).
- `main` of week3/genrand.c and the argument handling of all programs.
- The programs of 01-28, week4 and the other demonstrations of week7, and the copies of the Polybius and Caesar files in
  week3.
