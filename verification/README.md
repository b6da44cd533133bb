# Verified models of the CORTX test framework

The test framework mostly drives remote machines, but a few of its parts hold state,
protocol or arithmetic of their own. This project models those parts and proves what they
promise, for all inputs, all schedules and all outcomes of the outside world.
`dafny verify dfyconfig.toml` checks everything.

| files | what they model |
|---|---|
| `HolderString`, `LockRecord`, `LockProtocol`, `LockOverlap`, `LockingServer` | the shared/exclusive lock on a target, kept in a database record and taken by a search, a patch and a confirming search |
| `WorkPool`, `Workers` | the semaphore-throttled work queue, its worker threads and the shutdown by poison pills |
| `ResultSync` | the JIRA to database synchronisation and its `latest` marker |
| `TestPlanning`, `TestDispatch`, `TestMessages` | tests grouped by mark, selected by ticket and sent as messages through the bounded queue |
| `Singleton` | the double-checked singleton |
| `Cache` | the in-memory cache: a deque beside a dictionary |
| `MultipartParts` | splitting files into upload parts, ETags and checksums |
| `CloneStatus` | the pacemaker clone-status merge and the node's verdict |
| `XmlRecords` | grouping a flat stream of controller properties into records |
| `Secrets`, `ConfigTree`, `ConfigDict` | encrypted secrets and the recursive decryption of a configuration |
| `Retry` | the retry state machine of the switch-setup script |
| `DataGenerator` | data of an exact size, written to a file in chunks |
| `Text`, `Wrappers` | the string operations and the types that several of these use |

## How it is built

Concurrent code is a state machine whose steps are the single reads, writes, lock
operations and requests of one thread or client, and a theorem about it speaks of every run.
Code that changes an object is a class whose methods state their whole effect; the loop of
such a method is tied by its invariants to a specification function, and the promises are
proved about that function. The outside world is a parameter: what other clients do between
two requests, which requests are lost, when a request of the synchronisation fails, which runs,
reverts and builds succeed, what is drawn at random, what a product of doubles rounds to, and the hash functions and the block cipher.

The lock database follows the REST server of the repository
(`tools/rest_server/rest_app/systems_api.py`): a search is OK exactly when a record matches,
and an update is OK also when none does. Setup names are unique there, so the filters by name
meet at most one record. An update in `ResultSync` changes every match.

## What the proofs found

These properties fail of the code as it stands; each row of the table below that says
"if and only if" or "counterexample" gives the exact condition.

- A client whose name is part of another client's name counts as a holder of a shared lock it does
  not hold, and when it leaves it cuts its name out of the other one.
- Two requests on one target leave a record that contradicts its holders whenever their
  search-to-patch windows overlap: two clients can both be granted an exclusive lock, and both be
  confirmed. In longer runs the damage is done exactly when a patch lands on other holders than its
  search met. The confirming search keeps its promise even then: the record did name the client.
- A release reports success even when its patch matched nothing. A lost answer to a lock's patch or to
  its confirming search leaves a lock that nobody knows of. A target that is free but still names a
  client is polled for ever.
- A pool started with no workers and given work never comes back.
- A second synchronisation is idle only if JIRA lists no test with two different results; otherwise
  every pass writes new entries.
- A test with only base-component marks is filed under the last mark of its list but looked for under
  its first base mark, so it can be selected and never sent. A test listed twice stops the planning
  with a ValueError.
- `get_instance` reads the field twice: a clear in between, with no new init since, makes it return None.
- `pop_one` leaves its key in the deque, so storing that key again can evict the new value at once, or
  make it the first to go from a cache that is far from full.
- A file with fewer chunks than parts asked for is split into no parts at all.
- A stonith clone is meant to be excused on its own node, but the node name is compared without its
  domain, so no default node is ever excused.
- The XML parser raises KeyError unless the stream ends with a property that was not asked for.
- `decrypt_all_passwd` stops at an `end: end` entry in every dictionary, and a file with a key `end`
  of its own is decrypted only up to it. `decrypt` accepts up to 255 bytes of padding, not just a block.
- With a number of hosts other than one or three the switch-setup script ends on an unset job name
  without releasing the VM.
- Generating zero bytes, or an odd number of bytes from a seed, raises TypeError.

## Model

| member | source | states |
|---|---|---|
| `HolderString.JoinAddsName` | core/locking_server.py:101-112 | a client that joins a shared lock adds exactly one name to the list kept in the string, at its end |
| `HolderString.ContainsToken` | core/locking_server.py:172-177 | `client in clients` is true exactly when some listed name contains the client name |
| `HolderString.MembershipExact` | core/locking_server.py:172-177 | `client in clients` means "is listed" if and only if the name is listed or no listed name contains it |
| `HolderString.DepartedTokens` | core/locking_server.py:281-284 | `replace` then `strip` acts name by name: what is left is each listed name with every occurrence cut out, empty ones dropped |
| `HolderString.RemoveExact` | core/locking_server.py:281-284 | `replace(name, "")` cuts out the first occurrence and then works on what follows it |
| `HolderString.StripExact` | core/locking_server.py:281-284 | `strip` takes white space, and nothing else, off both ends, all of it |
| `HolderString.RemoveTokens` | core/locking_server.py:281-284 | cutting a name out of each piece leaves the other names unless one of them contains it, and then strictly less text |
| `HolderString.LeaveExact` | core/locking_server.py:281-284 | leaving removes exactly this client, however many blanks stay behind inside the string, if and only if no other listed name contains its name |
| `HolderString.PartOfAnotherName` | core/locking_server.py:176-177 | counterexample: with "ab" listed, "b" counts as a holder, and "b" leaving "ab b" leaves "a" |
| `LockProtocol.LockKeepsConsistent` | core/locking_server.py:48-130 | a lock granted on a consistent record leaves it consistent with one more holder: held alone, or shared with the count equal to the number of holders |
| `LockProtocol.UnlockKeepsConsistent` | core/locking_server.py:243-307 | a holder that leaves, last or not, leaves a record consistent with the remaining holders |
| `LockProtocol.StepKeepsInv` | core/locking_server.py:48-130 | every request of every client, when it does not open a second search-to-patch window on a target, keeps the invariant over all targets and all open windows |
| `LockProtocol.RunKeepsInv` | core/locking_server.py:48-307 | the invariant holds after every run of any number of clients and targets with such windows |
| `LockProtocol.HoldersExcludeEachOther` | core/locking_server.py:48-130 | in every such run an unshared target has at most one holder, a shared one counts exactly its holders, and a target is free exactly when nobody holds it |
| `LockProtocol.LastHolderRestores` | core/locking_server.py:271-294 | in whatever order the holders leave, the last one leaves the very record the run began with, its health included |
| `LockProtocol.HealthStays` | core/locking_server.py:48-307 | in every run, windows overlapping or not, no request changes whether any target is healthy |
| `LockProtocol.ConfirmedExactlyForHolders` | core/locking_server.py:132-180 | at every point of such a run the confirming search answers yes to the holders and to nobody else |
| `LockProtocol.OverlapGrantsTwice` | core/locking_server.py:72-125 | counterexample without the window condition: two clients are both granted and both confirmed the exclusive lock |
| `LockOverlap.PatchExact` | core/locking_server.py:48-130 | a patch leaves every record consistent with its holders if and only if it lands on the holders, and the way of holding, that its search met |
| `LockOverlap.ConsistentExactly` | core/locking_server.py:48-307 | for every run of any number of clients and targets, windows overlapping or not: the records are consistent with their holders throughout if and only if every patch lands on the holders its search met |
| `LockOverlap.ConsistentFromTheStart` | core/locking_server.py:48-307 | the same for every run that starts with all targets free and all clients idle |
| `LockOverlap.ApartIsConsistent` | core/locking_server.py:48-307 | runs whose windows on one target do not overlap are consistent throughout |
| `LockOverlap.NoHolderNoTrace` | core/locking_server.py:48-307 | in every run that stays consistent, overlapping or not, a target whose holders have all left has the record it began with |
| `LockOverlap.SecondPatchBreaks` | core/locking_server.py:72-125 | two requests of any kind whose searches met the same record: whichever patches first, the second patch leaves an inconsistent record |
| `LockOverlap.PairExact` | core/locking_server.py:48-307 | two requests of different clients on one target, in each of the six interleavings of their steps: the target ends consistent with its holders if and only if the two windows do not overlap |
| `LockingServer.SystemDb.Get` | tools/rest_server/rest_app/systems_api.py:71-92 | a search is answered OK exactly when a record matches in the database it meets and nothing is lost |
| `LockingServer.SystemDb.Patch` | tools/rest_server/rest_app/systems_api.py:175-181 | an update changes the matching record it meets, unless the request is lost; it is answered OK also when nothing matched |
| `LockingServer.LockTarget` | core/locking_server.py:48-130 | with other clients at work between the two requests: whether a lock is reported, how many requests were made, and the exact database left, which is the searched record's update written over whatever record the patch meets |
| `LockingServer.IsTargetLocked` | core/locking_server.py:132-180 | confirmed exactly when the record met by the search is not free and names this client (shared: parallel flag and positive count; exclusive: equal to the client) |
| `LockingServer.IsTargetPresent` | core/locking_server.py:222-241 | present exactly when the name is in the database met |
| `LockingServer.FindFreeTarget` | core/locking_server.py:182-220 | under interference the result is on the list and, in the database met, healthy and free (or shared and not free); with nobody else at work it is the first such target, and "" means there is none |
| `LockingServer.UnlockTarget` | core/locking_server.py:243-307 | the exact database left by a release under interference; after a search that met an exclusive lock a reported release changed something if and only if the record met by the patch still named the client |
| `LockingServer.ReleaseExact` | core/locking_server.py:270-294 | field by field: health is never touched; a release that saw an exclusive lock frees the record, and changes nothing else, if and only if it still names the client; one that saw a single holder of a shared lock frees it, one that saw more counts down and takes the name out |
| `LockingServer.StrangersRelease` | core/locking_server.py:290-307 | counterexample: a client that releases another one's exclusive lock is told it succeeded, and nothing has changed |
| `LockingServer.LockedIsConfirmed` | core/locking_server.py:48-180 | whoever patched a lockable record and is left alone is confirmed by the next search |
| `LockingServer.AcquireTarget` | testrunner.py:499-514 | returns the target only when its record confirms this client at the last search; with nobody else at work the lock is taken, field by field, exactly when the record is free and unnamed (to share: free and not shared, to join: shared), and the patch gets through; it is reported exactly when both later answers arrive, so "" leaves a lock behind if and only if one of those was lost |
| `LockingServer.GetAvailableTarget` | testrunner.py:517-544 | whatever the other clients do, a target is returned only if it is on the list and, at the confirming search, was not free and named this client; left alone with nothing lost, one is returned if and only if a shared target can be joined or the first that looks free can be locked |
| `LockingServer.TryFree` | testrunner.py:530-542 | one round for a free target: it succeeds, left alone, if and only if the first target that looks free can be locked, and otherwise changes nothing |
| `LockingServer.TryShared` | testrunner.py:528-536 | one round for a target to share: it succeeds, left alone, if and only if some shared target can be joined or the first that looks free can be locked |
| `LockingServer.NamedFreeTargetIsNeverAcquired` | testrunner.py:537-542 | a target that is free but still names a client is found in every round and can never be locked |
| `LockingServer.LeftIsAvailable` | core/locking_server.py:182-307 | a healthy target whose holders have all left, after any run with separate windows, looks free again and can be locked or shared |
| `LockingServer.TakeAgain` | testrunner.py:528-544 | and a client left alone takes it in one round |
| `WorkPool.StepKeepsInv` | commons/worker.py:31-86 | every step of every thread keeps: slots conserved, unfinished tasks accounted for, each item taken by one worker, each job run at most once, pills counted |
| `WorkPool.SlotHolderNeverBlocks` | commons/worker.py:31-46 | in every run semaphore + slot held by the producer + queued items + items in hand = maxsize, so a put that has its slot never waits for room |
| `WorkPool.StepDropsMeasure` | commons/worker.py:56-86 | every step of every thread costs at least one unit of a measure over puts left, queue contents and worker phases |
| `WorkPool.RunIsBounded` | commons/worker.py:56-86 | no schedule is longer than the measure it starts with |
| `WorkPool.SomeoneMoves` | commons/worker.py:56-86 | no deadlock: until `end_workers` has returned some thread can step, unless the pool has work and no workers |
| `WorkPool.FinalState` | commons/worker.py:79-86 | when `end_workers` has returned the queue is empty, nothing is unfinished, the semaphore is restored, no worker is alive, the items that came off the queue are those put, in that order, every job among them was run exactly once and every worker took exactly one pill |
| `WorkPool.EveryScheduleCompletes` | commons/worker.py:56-86 | for every job list, queue size, pool size and schedule: a bounded number of steps, and where no step is left everything is shut down with every job run exactly once |
| `WorkPool.NoWorkersNeverReturns` | commons/worker.py:79-86 | a pool started with no workers and given work never returns from `end_workers` |
| `WorkPool.SingleConsumerInOrder` | commons/worker.py:65-74 | the jobs a lone consumer takes off the queue and runs are exactly the work put before the pill, in the order it was put |
| `Workers.WorkQ.AcquireSlot` | commons/worker.py:38-41 | the first half of `put` takes one slot when the queue is bounded and changes nothing else |
| `Workers.WorkQ.Insert` | commons/worker.py:38-41 | the second half of `put` appends the item and counts it as unfinished |
| `Workers.WorkQ.ReleaseSlot` | commons/worker.py:43-46 | the first half of `task_done` gives one slot back when the queue is bounded |
| `Workers.WorkQ.MarkDone` | commons/worker.py:43-46 | the second half of `task_done` counts one task less |
| `Workers.Perform` | commons/worker.py:38-74 | one step on the real queue object is the step of the state machine; a worker keeps the item the queue hands it, and a job that runs is that item's |
| `Workers.PickAll` | commons/worker.py:65-74 | running each position once runs each job as often as it was given |
| `Workers.EveryJobRunOnce` | commons/worker.py:56-86 | in every schedule, when `end_workers` has returned, the multiset of jobs taken off the queue and run is that of the jobs given |
| `Workers.RunQueue` | commons/worker.py:31-86 | under any scheduler, for any queue size and any number of consumers, the jobs handed out by the queue object and run are exactly those put; with one consumer in the order they were put |
| `Workers.RunPool` | commons/worker.py:56-86 | under any scheduler the pool stops, and the multiset of jobs run is the multiset of jobs given |
| `ResultSync.RecordedKeepsOne` | tools/db_update.py:246-341 | recording a result keeps at most one latest entry per (build, execution, test), also between the two requests, and leaves one that shows the result |
| `ResultSync.WrittenFields` | tools/db_update.py:246-341 | an entry written for a listing has that listing's key, result, start time, log path, platform and defect ids; its description is that of the latest entry it replaced or, the first time, the listing's own |
| `ResultSync.EveryEntryIsWritten` | tools/db_update.py:201-361 | every entry a pass adds is the one entry that one of its listings writes |
| `ResultSync.WritesExactly` | tools/db_update.py:225-341 | a listing adds an entry if and only if it has a result that the database, after the listings before it, does not show for its test |
| `ResultSync.LatestEntryExact` | tools/db_update.py:201-361 | after a pass a test's latest entry is that of the last listing that changed its result, with every field; its issue list is that of the last listing after it that sets one |
| `ResultSync.PlansListed` | tools/db_update.py:201-225 | the listings of a pass are one for each test of each execution of each plan, in that order, each with the plan's, the execution's and the test's own fields, and no others |
| `ResultSync.SyncAgreesWithJira` | tools/db_update.py:201-361 | after a pass over any listings every test listed with a result has exactly one latest entry and it shows the result listed last, letter case aside; old entries are kept and change only by losing the marker or by their issue list |
| `ResultSync.DescriptionSurvives` | tools/db_update.py:323-337 | however often its result changes, a test keeps the tags, labels, plan and other description of its latest entry |
| `ResultSync.QuietPass` | tools/db_update.py:289-361 | on an up-to-date database a pass adds no entry and only sets issue lists |
| `ResultSync.FirstPassSettles` | tools/db_update.py:201-361 | where JIRA lists no test with two results, one pass leaves every listed result shown and every issue list final |
| `ResultSync.SecondSyncIsIdle` | tools/db_update.py:201-361 | a second pass with the same JIRA state changes nothing if and only if JIRA lists no test with two different results |
| `ResultSync.RequestsAreSound` | tools/db_update.py:297-340 | history and the one-latest rule hold after each single request, the ones before a failure included |
| `ResultSync.ReportsDb.Search` | tools/db_update.py:121-145 | a search returns all matches, or none, or ends the script |
| `ResultSync.ReportsDb.Retire` | tools/db_update.py:79-97 | the marker patch updates every match |
| `ResultSync.SyncTest` | tools/db_update.py:225-361 | one test, with any request failing: the database is sound wherever the script stops, and the pass of that listing when it does not |
| `ResultSync.SyncTests` | tools/db_update.py:224-361 | the tests of one execution: sound wherever it stops, otherwise the listings in order |
| `ResultSync.SyncExecutions` | tools/db_update.py:212-361 | the executions of one plan: sound wherever it stops, otherwise the listings in order |
| `ResultSync.SyncPlans` | tools/db_update.py:201-361 | the three nested loops: sound wherever a request fails, otherwise exactly one pass over all listings in order |
| `TestPlanning.Planner.UpdateRevTagMap` | drunner.py:324-334 | files a test under a mark and class, and nothing else |
| `TestPlanning.Planner.FileTest` | drunner.py:304-319 | files a test under all its specific marks, or with only base marks under the last mark of its list; its own mark is the last of its list outside the three sets, else the first base mark, else none |
| `TestPlanning.OwnMarkExact` | drunner.py:304-319 | by position in the list: the own mark is the last mark outside the three sets or, if there is none, the first base mark, or none |
| `TestPlanning.Planner.CreateTestMap` | drunner.py:281-321 | the reverse map, the test map and the skip list say exactly what the collected tests say; of tests with one id the last is kept in the test map |
| `TestDispatch.PlanExact` | drunner.py:237-278 | planning raises ValueError if and only if a chosen test is listed twice; otherwise the groups hold exactly the chosen listed tests whose mark is filed, each with its ticket |
| `TestDispatch.TicketsListed` | drunner.py:237-245 | planning goes through every test of every ticket, ticket by ticket and in each one's order, and through nothing else |
| `TestDispatch.PlanTest` | drunner.py:245-278 | one listed test: passed over, refused, or planned under its mark and class |
| `TestDispatch.DevelopPlan` | drunner.py:237-278 | the loops over tickets and tests carry out the plan, listing by listing, and stop at the first refused one |
| `TestMessages.FiledUnderOwnMark` | drunner.py:304-319 | a test is filed under its own mark if and only if it has a specific mark or its first base mark ends its list |
| `TestMessages.PlacementExact` | drunner.py:258-278 | a chosen listed test is planned if and only if its own mark is filed, only under that mark, and in its own class exactly when it is filed there itself or is sequential |
| `TestMessages.TagMessages` | drunner.py:208-231 | one message for the parallel group of a tag and one for each sequential test, alone and with its own ticket; `next(iter(set_t))` always finds a test |
| `TestMessages.BuildMessages` | drunner.py:208-231 | every group of the plan is announced, whatever the order of tags and tests, and no two messages carry the same work |
| `TestMessages.MessagesAreDisjoint` | drunner.py:208-231 | no test is sent twice |
| `TestMessages.SentExactly` | drunner.py:208-231 | exactly the planned tests are sent |
| `TestMessages.TestsAreConserved` | drunner.py:208-321 | from collection and tickets to messages: disjoint test sets whose union is the wanted tests whose own mark is filed; a test with a specific mark always is |
| `TestMessages.MessagesAreWellSent` | drunner.py:208-231 | every test travels under the last specific mark of its list or, without one, its first base mark, in the parallel message exactly when it is parallel and filed there, otherwise alone with its own ticket; a parallel message names the ticket of one of its tests |
| `TestMessages.BaseOnlyTestIsLost` | drunner.py:315-319 | counterexample: a test marked ha, parallel is selected and never sent |
| `TestMessages.PlanRun` | drunner.py:208-321 | the whole path from collected tests and tickets to the messages: it fails exactly on a wanted test listed twice, and otherwise conserves the tests |
| `TestMessages.EmittedInOrder` | core/producer.py:193-210 | through the 1024-slot queue to the producer thread, under every interleaving, exactly the messages come off the queue and are emitted, in order |
| `TestMessages.DispatchRun` | drunner.py:199-334 | end to end, from collected tests and tickets through the queue object to what the producer emits, under any scheduler: it fails exactly on a wanted test listed twice, and otherwise the emitted messages conserve the tests, each under the listed mark it belongs to |
| `Singleton.StepKeepsInv` | commons/report_client.py:37-71 | every read, write, construction and lock step of any thread keeps: one lock holder, constructions by init minus clears is 0 or 1 |
| `Singleton.WrittenUnderLock` | commons/report_client.py:44-71 | in every run the instance field changes only in the hands of the one thread that holds the lock |
| `Singleton.OneInstance` | commons/report_client.py:44-71 | constructions by init minus clears is 1 exactly when an instance is stored or about to be, else 0 |
| `Singleton.WithoutClears` | commons/report_client.py:37-53 | with no clears at most one init construction ever happens and, once an init has returned, `get_instance` neither raises nor returns None |
| `Singleton.GetReturnsNoneExactly` | commons/report_client.py:37-71 | in every reachable state, the second read of `get_instance` finds nothing if and only if a clear ran between its two reads and no instance has been stored since |
| `Singleton.ClearBetweenReads` | commons/report_client.py:37-71 | in every state with an instance, a clear that runs next between the two reads of a get makes it return None |
| `Singleton.SomeoneMoves` | commons/report_client.py:37-71 | no deadlock: while a call is under way some thread can step |
| `Singleton.ClearMakesGetEmpty` | commons/report_client.py:37-42 | counterexample: a clear between the two reads of `get_instance` makes it return None |
| `Cache.StoreRefines` | core/runner.py:196-213 | store on agreeing deque and dictionary is store on the bounded insertion-order map: a known key keeps its place, a new one may push the oldest out |
| `Cache.DeleteRefines` | core/runner.py:228-243 | delete on agreeing deque and dictionary is removal from the map |
| `Cache.DeleteExact` | core/runner.py:228-243 | on any two tables, a popped key included: the dictionary loses exactly the key, the deque one occurrence of it, and the rest keeps its order and its values |
| `Cache.PoppedAndDeleted` | scripts/locust/locust_utils.py:272-296 | any history in which each pop is followed at once by the deletion of the same key leaves agreeing tables with the contents of the simple map |
| `Cache.EvictOldest` | core/runner.py:207-210 | eviction drops the first pair and keeps the two structures in agreement |
| `Cache.CacheRefinesMap` | core/runner.py:185-243 | after any sequence of store, lookup and delete the deque has distinct keys, exactly the dictionary's, and the contents are those of the simple map |
| `Cache.CacheStaysBounded` | core/runner.py:185-263 | with pop_one too, the dictionary's keys stay in the deque and neither outgrows the bound |
| `Cache.StoredIsFound` | core/runner.py:196-226 | a value just stored is found if and only if the bound is positive and the key is not the dead head of a full deque |
| `Cache.StoredIsFoundWithoutPops` | core/runner.py:196-226 | without pop_one a stored value is always found, if there is room for any |
| `Cache.StoredAgainAfterPop` | core/runner.py:196-263 | counterexample from an empty cache of one entry: store, pop and store the same key, and it is gone |
| `Cache.SurvivesExactly` | core/runner.py:196-263 | a key that is not named again, pops of other keys or not, is still there with its value if and only if no more new keys have been stored than its slack: the free places plus the keys before its first place in the deque |
| `Cache.SurvivesAtLeast` | core/runner.py:196-263 | deletions of other keys only make it last longer |
| `Cache.FreshSlack` | core/runner.py:196-213 | a new key in a cache from which nothing was popped outlives maxsize - 1 further new keys |
| `Cache.EvictedEarlyAfterPop` | core/runner.py:196-263 | counterexample from an empty cache of two entries: after store, pop and store of one key the next new key pushes it out of a half-empty cache |
| `Cache.InMemoryDB.Store` | core/runner.py:196-213 | the method leaves exactly the two tables the model says |
| `Cache.InMemoryDB.Lookup` | core/runner.py:215-226 | the value of the key, or the KeyError; on agreeing tables what the simple map holds |
| `Cache.InMemoryDB.Delete` | core/runner.py:228-243 | the dictionary loses exactly the key and the deque its first occurrence, the order of the rest kept, whether or not the key is in the dictionary |
| `Cache.InMemoryDB.PopOne` | core/runner.py:249-263 | takes some live pair out of the dictionary only; nothing when it is empty |
| `MultipartParts.ReadParts` | commons/utils/s3_utils.py:286-293 | parts are numbered from 1, none is empty, each carries its own digest, and together they are the file unless every read asks for nothing |
| `MultipartParts.PartCount` | commons/utils/s3_utils.py:284-293 | for p chunks per part: total <= n <= total + ceil(total / p) <= 2 * total |
| `MultipartParts.GetAlignedParts` | commons/utils/s3_utils.py:281-298 | all parts but the last have p chunks and the count is within the bounds; the file is lost if and only if it holds fewer chunks than parts asked for |
| `MultipartParts.GetUnalignedParts` | commons/utils/s3_utils.py:321-341 | whatever extra lengths are drawn the parts make up the file, each as long as drawn, if and only if there is a chunk per part |
| `MultipartParts.GetPrecalculatedParts` | commons/utils/s3_utils.py:356-366 | for lengths in any order the parts cover as much of the file as the lengths add up to |
| `MultipartParts.SortedSorts` | commons/utils/s3_utils.py:372-378 | sorting the parts by number gives an ascending permutation of them |
| `MultipartParts.AscendingIsUnique` | commons/utils/s3_utils.py:258-261 | distinctly numbered parts have one ascending arrangement |
| `MultipartParts.EtagIgnoresOrder` | commons/utils/s3_utils.py:252-263 | the ETag is the same for every order of the dictionary |
| `MultipartParts.EtagExact` | commons/utils/s3_utils.py:252-263 | the ETag is the digest of the parts' digests in ascending part order, with the number of parts, and no other string is |
| `MultipartParts.CalcChecksum` | commons/utils/s3_utils.py:225-236 | the checksum is the digest, with their number, of the digests of consecutive pieces that make up the file, ceil(size / part_size) of them, or of the whole file |
| `CloneStatus.MergeClone` | commons/helpers/health_helper.py:734-747 | fails exactly when a running element has no default node of its own; otherwise each running node has FAILED if its element is blocked and else its role and, if any element is stopped, every other default node the role of the last stopped one |
| `CloneStatus.MergeIgnoresOrder` | commons/helpers/health_helper.py:734-747 | the merged map does not depend on the order of the elements when the stopped ones agree |
| `CloneStatus.CloneFineExactly` | commons/helpers/health_helper.py:602-612 | no status other than Started, if and only if every running element is started and unblocked and, where a default node runs nothing, the last stopped element has the role Started |
| `CloneStatus.ResourceStatus` | commons/helpers/health_helper.py:751-771 | each listed id has the status of its last listing: FAILED if it runs and is blocked, else its role |
| `CloneStatus.FailedClones` | commons/helpers/health_helper.py:602-612 | exactly the clones with a merged status other than Started on a node that is not exempt are reported; it raises exactly on a running element without a default node or a stonith id without a third part |
| `CloneStatus.ExemptExactly` | commons/helpers/health_helper.py:604-609 | a stonith clone exempts a default node if and only if the third part of its id is the node's name after the prefix, domain included |
| `CloneStatus.StonithIsNotExempt` | commons/helpers/health_helper.py:604-609 | under ids of the form stonith-srvnode-1-clone no default node is exempt: such a clone fails exactly when some status is not Started |
| `CloneStatus.CheckPcs` | commons/helpers/health_helper.py:602-622 | the failed ids are exactly the failing clones and the resources and group members whose last listing is not started, or runs blocked |
| `XmlRecords.ReadChild` | commons/utils/config_utils.py:159-169 | one property, for any list of fields, repeated ones too: clears its slot and fills it again if the name is listed |
| `XmlRecords.ReachedFurther` | commons/utils/config_utils.py:158-169 | after any stream the slots hold the records completed so far and nothing else but the slot in use |
| `XmlRecords.ReadChildren` | commons/utils/config_utils.py:151-169 | the reading loop reaches that state for every stream and field list |
| `XmlRecords.RemoveEmpty` | commons/utils/config_utils.py:172-177 | the clean-up stops at the first slot that is empty or missing, removes it or raises KeyError, and touches no other |
| `XmlRecords.ParseXml` | commons/utils/config_utils.py:150-180 | for every stream and field list: succeeds if and only if the stream ends with a property not listed, and then returns exactly the completed records |
| `XmlRecords.HitsInOrder` | commons/utils/config_utils.py:159-161 | the properties that count are those with a listed name, all of them, in their order |
| `XmlRecords.RecordsExact` | commons/utils/config_utils.py:158-169 | for every stream and distinct fields: record j is there if and only if the stream has (j + 1) times as many listed properties as there are fields, and holds each name of its row with the text last given there |
| `XmlRecords.GroupsOfBlocks` | commons/utils/config_utils.py:158-169 | a concatenation of blocks, each holding every field once with other names between, groups into one record a block, in order |
| `XmlRecords.ParsePrinted` | commons/utils/config_utils.py:150-180 | parsing undoes printing: such blocks and a trailing unlisted property give back the records, in order |
| `XmlRecords.BlockRecordExact` | commons/utils/config_utils.py:161-165 | the record of a block has exactly the requested fields, each with the text printed for it |
| `Secrets.UnpadExact` | commons/pswdmanager.py:59-62 | a text is accepted, with this result, if and only if it is the result and p bytes of value p, for some p from 1 to 255 |
| `Secrets.PadUnpad` | commons/pswdmanager.py:41-62 | unpadding undoes the padding of section 6.3 of RFC 5652 for every length |
| `Secrets.XorBitsAt` | commons/pswdmanager.py:40-43 | a bit of the exclusive or is set if and only if the bits of the two numbers differ |
| `Secrets.StoredAt` | commons/pswdmanager.py:39-43 | the stored text is the vector and, block by block, the enciphered bitwise exclusive or of the padded text's block with the stored block before |
| `Secrets.ReadAt` | commons/pswdmanager.py:56-58 | decryption gives, block by block, the bitwise exclusive or of the deciphered block with the stored block before |
| `Secrets.CbcRoundTrip` | commons/pswdmanager.py:40-58 | over any invertible block cipher decryption undoes the chaining of section 6.2 of NIST SP 800-38A for every vector |
| `Secrets.Base64RoundTrip` | commons/pswdmanager.py:44-55 | decoding undoes the encoding of section 4 of RFC 4648 for every byte string |
| `Secrets.ThreeExact` | commons/pswdmanager.py:44-55 | three bytes are encoded as these four letters if and only if both are the same number, most significant part first |
| `Secrets.TwoExact` | commons/pswdmanager.py:44-55 | two bytes, filled up with zero bits, likewise as three letters and a pad |
| `Secrets.OneExact` | commons/pswdmanager.py:44-55 | one byte likewise as two letters and two pads |
| `Secrets.EncodeAppend` | commons/pswdmanager.py:44-55 | groups of three bytes are encoded one after the other |
| `Secrets.AlphabetExact` | commons/pswdmanager.py:44-55 | the letters are those of section 4 of RFC 4648, in its order |
| `Secrets.AlphabetRoundTrip` | commons/pswdmanager.py:44-55 | the base64 alphabet stands for its values one to one |
| `Secrets.SecretRoundTrip` | commons/pswdmanager.py:31-62 | `decrypt(encrypt(s)) == s` for every secret and every random vector |
| `Secrets.DecryptExact` | commons/pswdmanager.py:55-62 | stored data decrypts to this text if and only if whole blocks follow the vector and they end in valid padding after it |
| `ConfigTree.AllOfAt` | commons/pswdmanager.py:88-98 | at every position of every nested dictionary: same key; a listed password decrypted once, lists element by element; anything else unchanged |
| `ConfigTree.AllOfRaises` | commons/pswdmanager.py:88-98 | decryption of everything raises if and only if at some position, at whatever depth, a listed password or an element of a list of them does not decrypt |
| `Text.LowerExact` | commons/pswdmanager.py:91 | `lower` gives the one string without capital letters that is the same but for case |
| `ConfigTree.StopsAt` | commons/pswdmanager.py:99-101 | what follows the first `end: end` of a dictionary is left as it is, and that entry is dropped |
| `ConfigTree.DecryptedSize` | commons/pswdmanager.py:88-101 | entries are only ever lost, and one is lost if and only if some dictionary holds `end: end` |
| `ConfigTree.LoadExact` | commons/configmanager.py:41-45 | a loaded file has every listed password decrypted once and all else unchanged if and only if it has no key `end` of its own and no nested `end: end` |
| `ConfigTree.LoadRaises` | commons/configmanager.py:41-45 | without those two cases the load raises exactly when some listed password does not decrypt |
| `ConfigTree.EarlyEnd` | commons/configmanager.py:41-45 | counterexample: a file with a key `end` before a password keeps the password encrypted |
| `ConfigTree.LoadRoundTrip` | commons/configmanager.py:41-45 | a configuration stored with its listed passwords encrypted, under any vectors and at any depth, loads as the configuration itself |
| `ConfigDict.Dict.DecryptAll` | commons/pswdmanager.py:65-101 | in place on nested dictionary objects: an exception exactly when the recursion on values has one, otherwise exactly its result, and no other object is touched |
| `ConfigDict.Dict.DecryptSub` | commons/pswdmanager.py:89-90 | the recursive call changes the entry of one nested dictionary and no other |
| `ConfigDict.Dict.DecryptSlot` | commons/pswdmanager.py:92-98 | a plain value is replaced if its key is listed, in place, and nothing else changes |
| `ConfigDict.Dict.DecryptList` | commons/pswdmanager.py:93-97 | the elements of a list are decrypted in turn, and one that cannot be raises |
| `ConfigDict.Dict.LoadConfig` | commons/configmanager.py:41-45 | setting `end` and decrypting in place is loading |
| `Retry.TriggerDeployment` | switch_setup.py:260-301 | at most three builds, each right after a revert of the VM that worked; works if and only if a build succeeds before a revert fails; raises on the unset job name exactly when the first revert works with neither one host nor three |
| `Retry.TriggerBuild` | switch_setup.py:264-299 | one retry: reverts first, and builds once if and only if that worked and there are one or three hosts |
| `Retry.RunKeeps` | switch_setup.py:491-494 | a run keeps the trace rules: runs apart by a successful build, all tests first and only those to do later, every build right after a revert that worked |
| `Retry.RunTicket` | switch_setup.py:480-501 | one ticket: at most 4 runs and 12 builds; completes, gives up after the fourth deployment, fails on a deployment or on the job name exactly when the outcomes say so |
| `Retry.RunTickets` | switch_setup.py:464-503 | for every ticket list and every outcome: stops; at most 4 runs and 12 builds a ticket, in list order, consecutive runs of one ticket apart by a successful build, and every build right after a revert for its ticket that worked; completes if and only if every ticket can, and then each last run returned 0; the VM is released exactly once, last, unless the job name is unset |
| `Retry.TwoHostsKeepTheVm` | switch_setup.py:265-292 | counterexample: with two hosts a failed run and a working revert end the script with the VM never released |
| `DataGenerator.GetBuf` | libs/di/data_generator.py:119-126 | the padding recursion stops and gives exactly the length asked for, nothing for a negative one |
| `DataGenerator.Repr` | libs/di/data_generator.py:115-117 | the printed form of bytes is ASCII and at least three characters longer than they are |
| `DataGenerator.ReprReadsBack` | libs/di/data_generator.py:115-117 | the printed form is a literal that reads back as the bytes, in double quotes exactly when they hold a single quote and no double one |
| `DataGenerator.LongsExact` | libs/di/data_generator.py:132-136 | the seed is repeated as the eight bytes of its two's complement, least significant first |
| `DataGenerator.GenerateSucceeds` | libs/di/data_generator.py:81-108 | data comes out if and only if the size is positive, the type is the default one, the ratio is at least 1 and, with a seed, the size is even and the seed fits a long |
| `DataGenerator.GenerateExact` | libs/di/data_generator.py:81-126 | every buffer has exactly the size asked for: the printed form of the first bytes, however many the doubles say, of the random ones or, with a seed, of the enciphered repeated seed, then filler |
| `DataGenerator.KeptShare` | libs/di/data_generator.py:98-136 | for every count the doubles may give - the whole part of the exact share, or one less where that is whole - the bytes that do not compress are the size over the ratio, at most one byte below and at most a percent of the size above |
| `DataGenerator.SaveData` | libs/di/data_generator.py:183-215 | for every buffer and every size, a multiple of the chunk or not, the file holds the whole buffer once; a buffer no longer than the size is written in chunks of at most 1024, 4096 or 65536 bytes, as the size is below 1024, below a megabyte or not |

## Left out

Restricted or simplified in the model:

- LockProtocol.RunKeepsInv: supposes that the search-to-patch windows on one target do not overlap; the two separate requests do not enforce it. LockOverlap drops this and gives the exact condition.
- LockOverlap.ConsistentExactly: like the rest of the lock runs it supposes that a client searches to lock only what it does not hold, and to unlock only what it holds; the server checks neither.
- LockProtocol.HoldersExcludeEachOther: supposes client names of which none is part of another; HolderString gives the exact conditions per name. Lost requests and replies are in LockingServer, not in the runs.
- LockingServer.SystemDb.Get: the count and the find of the server's search are one step.
- LockingServer.GetAvailableTarget: a parameter bounds the rounds of polling; the source polls until it succeeds.
- WorkPool.EveryScheduleCompletes: the worker function does not raise, and each item of work holds one element for its own inner queue.
- TestMessages.EmittedInOrder: building and serialising a message succeeds; a serialization error in the producer skips both task_done calls.
- TestMessages.PlanRun: test ids are unique, as in JIRA.
- Singleton.StepKeepsInv: the constructor does not raise.
- Cache.InMemoryDB.Store: each method is one step under the cache's lock.
- Cache.PoppedAndDeleted: nothing comes between a pop and its delete; where the bucket refuses the deletion the script stores the key again, which SurvivesExactly and StoredAgainAfterPop cover.
- MultipartParts.GetAlignedParts: the division of the file size by the chunk size is exact; the source divides in floating point first. Shuffling the finished dictionary is covered by EtagIgnoresOrder only.
- CloneStatus.FailedClones: clone ids are distinct.
- XmlRecords.ParseXml: every element has a name attribute and the file parses.
- Secrets.Base64RoundTrip: the decoder is the strict one of the standard; the library's also skips characters outside the alphabet.
- ConfigTree.LoadExact: keys are strings, and lower-casing is that of ASCII letters.
- ConfigDict.Dict.DecryptAll: the nested dictionaries form a tree; a dictionary reached along two paths is not modelled.
- Retry.RunTickets: commands return a status and raise nothing; the reverts of the VMs of one retry are one outcome.
- DataGenerator.KeptShare: the percentage is computed exactly; the source's doubles agree with that for any ratio that is not astronomically large. The rounding of the share itself is covered.
- DataGenerator.GetBuf: the source's recursion is one frame a megabyte, so the interpreter's recursion limit stops it near a gigabyte.

Not modelled:

- HTTP, MongoDB, JIRA, Kafka, SSH, telnet, IPMI and kubectl traffic, pytest hooks, argument parsing and logging.
- `core/health_status_check_update.py`, whose write-back of whole records could disturb the lock fields.
- The single-node and OVA branches of the clone merge, daemon and hctl status.
- The insides of MD5, SHA-256 and AES, the lookup of the secret key, and UTF-8.
- The ordering of test executions and the choice of tests inside a test runner.
- S3 request signing: straight-line string assembly around hash functions.
- Error codes, command tables, constants, controller and pod wrappers, the fault simulator.
