# Verified model of the FastAPI clean-architecture backend

A Dafny model of the algorithms and protocols inside the backend whose guarantees range over every
graph, every input or every interleaving. `dafny verify dfyconfig.toml` checks all of it.

| modules | part of the backend |
|---|---|
| Orders, ImportGraph, CycleSearch, CycleOrder, CycleReport, DottedNames, ModuleResolver | circular-import detector and module resolver of the architecture linter |
| Powers, ProbeSequence, OrderedMap, CompactHashMap | compact hash map with perturbed open addressing |
| DistributedLock, LockClient, LockBackoff | Redis lock: tokens, expiry, sorted multi-acquire, retry loop |
| CatalogPaging | keyset and OFFSET paging |
| KafkaLog, ConsumerGroups | partition logs, consumers, committed offsets |
| Glob, TopicRouting, AmqpBroker | topic matcher, exchanges and queues |
| Ledger, UnitOfWork | double-entry ledger and snapshot unit of work |
| Base32, Identifiers | UUIDv7 and ULID generators and decoders |
| Idempotency, TokenRotation, ViewCounter, DeadLetter, FraudVelocity, UserStore | run-level state machines |
| MoneyFx | banker's rounding, money and currency conversion |

Code that changes state in place is modelled by classes with loops and frames; each method is
proved against functions on values, and the theorems are about those functions. Protocols over
Redis are state machines in which every command is one step. Time, randomness, generated
identifiers, hash values and the outcomes of calls into foreign code are parameters; generated
identifiers are assumed fresh.

## Where promise and code part

The model follows the code. In these places the code does less, or something else, than its
documentation says; the members named give a counterexample or the exact condition under which the
promise holds.

- The detector promises all cycles. It lists one cycle per back edge: `TriangleNotAllListed`. It
  lists all cycles whatever the order of the names exactly when no two different cycles of the graph
  share an edge: `AlwaysAllListedIff`.
- The hash map promises a full-period probe. A negative hash perturbs with -1 for ever, and a lookup
  may not end: `MinusEightNeverEnds`, `VisitsAllIffNotNegative`, `LookupEndsIffNotNegative`.
- Sorted acquisition prevents deadlock only if no key has two names; `p` and `lock:p` are one key
  but sort apart: `TwoNamesSelfWait`, `DeadlockIffTwoNames`.
- Locks are rolled back, except tokens the client lost track of: `AppliedSetIsLeft`,
  `StrayGrowsIff`, `LeftBehindIff`.
- Literal topic words are matched as globs, unlike section 3.1.3.3 of AMQP 0-9-1:
  `QuestionMarkDisagrees`, `AgreesWithAmqpIff`.
- UUIDv7 values of one millisecond increase until the 12-bit counter wraps: `V7RunIncreasesIff`.
- A committed offset promises that what lies below it was consumed: `ForwardSeekSkips`,
  `AlwaysPromisedIffGuarded`, and in the caller's terms `CautiousIsGuarded`.
- Journal entries balance, but over all currencies together: `TwoCurrencyEntry`, `CurrencyBalancesIff`.
- Rollback restores shallow copies, so users changed in place keep the change: `RunBlock`,
  `InPlaceChangeSurvives`.
- Charges promise no double spending. A recorded failure is retaken by separate commands, and a
  charge whose success could not be recorded counts as failed: `FailureAllowsTwo`,
  `UnrecordedChargeIsRepeated`, `AtMostOneIffSafeRetakes`, `UnsafeRetakeChargesTwice`.
- Refresh tokens are rotated by a read and a later write: `InterleavedRefreshSucceedsTwice`,
  `InterleavedLogoutIsUndone`, `RunSafeIff`.
- The view counter promises no lost updates: `FailuresMiscount`, `AlwaysWholeIff`.
- A redrive rebinds the quarantine to a list computed before it awaits: `OverlapSendsTwice`,
  `ArrivalIsLost`, `PurgedComesBack`, `AlwaysConservedIff`.
- A velocity lookup is falsified by an earlier shorter one, and by a fallback: `LookupExactIff`,
  `FallbackTransferUnseen`, `FallbackExactIff`.
- Rule 1 of the fraud score is documented as 40 points; count and volume together give 80:
  `ScoreIsDocumentedIff`.
- Changing permissions rebuilds the user without the national id: `PermissionsKeepRestIff`.

## Model

| member | source | states |
|---|---|---|
| `CycleSearch.DetectCycles` | app/core/architecture_linter.py:191-224 | for every graph and order of the names: the report is that of the search function, and is empty iff the graph is acyclic |
| `CycleSearch.DetectModuleCycles` | app/core/architecture_linter.py:191-224 | the same for dotted names in Python's string order |
| `CycleSearch.OutcomeIsSearch` | app/core/architecture_linter.py:191-224 | every reported list is a simple cycle, every module is entered once, finishing numbers and the search forest explain the report, the first root has no parent |
| `CycleOrder.OutcomeInOrder` | app/core/architecture_linter.py:207-222 | the search goes by ascending names: a module is entered from another only after every smaller module that the other imports, a root only after every smaller module, and of two cycles closed by one module the one closing at the smaller module is listed first |
| `CycleOrder.ReportIsSorted` | app/core/architecture_linter.py:207-222 | the report is sorted lexicographically by the paths along which its cycles were found, and every cycle was found along one |
| `CycleOrder.VisitSorted` | app/core/architecture_linter.py:203-218 | a nested search keeps the report sorted and finds only below the module it searches |
| `CycleOrder.RootPathUnique` | app/core/architecture_linter.py:203-215 | the path from a root to a module is determined by the module |
| `CycleSearch.VisitKeeps` | app/core/architecture_linter.py:203-218 | a nested search keeps the search invariant, restores the path and finishes its module |
| `CycleSearch.Search.Dfs` | app/core/architecture_linter.py:203-218 | the recursive method with its shared variables refines the search function and terminates |
| `CycleSearch.Search.Explore` | app/core/architecture_linter.py:207-215 | the loop over sorted successors refines the fold over them |
| `CycleSearch.Search.Examine` | app/core/architecture_linter.py:207-215 | one successor: recorded if grey, searched if white, skipped if black |
| `CycleSearch.Search.Push` | app/core/architecture_linter.py:204-205 | colouring grey and pushing, as the state change Enter |
| `CycleSearch.Search.Pop` | app/core/architecture_linter.py:217-218 | popping and colouring black, as the state change Leave |
| `CycleSearch.EnterKeeps` | app/core/architecture_linter.py:204-205 | entering a white module keeps the search invariant |
| `CycleSearch.BackEdgeClosesCycle` | app/core/architecture_linter.py:209-213 | `path.index` finds the grey module and the recorded list is a simple cycle closed by the back edge |
| `CycleSearch.RecordKeeps` | app/core/architecture_linter.py:209-213 | recording a back edge keeps the search invariant |
| `CycleSearch.LeaveKeeps` | app/core/architecture_linter.py:217-218 | finishing a module whose successors are settled keeps the search invariant |
| `CycleSearch.EnterForest` | app/core/architecture_linter.py:203-215 | entering extends the search forest |
| `CycleSearch.RecordForest` | app/core/architecture_linter.py:209-213 | a recorded cycle runs down the search forest |
| `CycleSearch.LeaveForest` | app/core/architecture_linter.py:217-218 | modules finish before the module they were entered from |
| `ImportGraph.UnreportedWalkDescends` | app/core/architecture_linter.py:203-218 | without reported edges finishing order is a topological order |
| `ImportGraph.ClosedWalkMeetsReport` | app/core/architecture_linter.py:191-224 | the reported edges hit every closed walk: removing them leaves an acyclic graph |
| `ImportGraph.EmptyIffAcyclic` | app/core/architecture_linter.py:191-224 | empty report iff acyclic |
| `ImportGraph.DisjointCyclesListed` | app/core/architecture_linter.py:191-224 | a cycle that shares no edge with another cycle is listed |
| `ImportGraph.TriangleNotAllListed` | app/core/architecture_linter.py:192-192 | counterexample to the promise of all cycles: three mutually importing modules |
| `CycleReport.AlwaysAllListedIff` | app/core/architecture_linter.py:192-222 | for every graph: all orders of the names list all cycles iff no two different cycles share an edge |
| `CycleReport.OverlapIsMissed` | app/core/architecture_linter.py:192-222 | rooted where two overlapping cycles part, every search misses a cycle |
| `CycleReport.StaysBelow` | app/core/architecture_linter.py:203-215 | tree and back edges leave the subtree of a root's child only through the root |
| `CycleReport.AllListedIff` | app/core/architecture_linter.py:192-215 | one search lists all cycles iff it skipped no edge on a cycle |
| `CycleReport.FollowedCycleIsListed` | app/core/architecture_linter.py:203-215 | a cycle of followed edges is listed, up to its starting module |
| `CycleReport.NotReportedBeforeEnd` | app/core/architecture_linter.py:203-215 | a cycle of followed edges has a single reported edge |
| `CycleReport.TreePathUnique` | app/core/architecture_linter.py:203-215 | the path of a search is determined by its ends |
| `ModuleResolver.ResolveModuleTarget` | app/core/architecture_linter.py:171-189 | the longest known package prefix of the imported name, none iff no prefix is known |
| `ModuleResolver.Parent` | app/core/architecture_linter.py:185-186 | dropping the last part of a name skips no package prefix |
| `ModuleResolver.RelativeImport` | app/core/architecture_linter.py:175-178 | a relative import drops as many parts of the importing module as it has dots and appends the imported name |
| `ModuleResolver.OtherImports` | app/core/architecture_linter.py:173-178 | with no dots, or with as many as the name has parts, the imported name is taken as it is |
| `DottedNames.JoinSplit` | app/core/architecture_linter.py:176-178 | joining the parts of a name gives the name back |
| `DottedNames.SplitJoin` | app/core/architecture_linter.py:176-178 | splitting joined dot-free parts gives the parts back |
| `ProbeSequence.FullPeriod` | app/core/dsa/hash_map.py:127-129 | x -> 5x + 1 reaches every residue modulo a power of two |
| `ProbeSequence.VisitsAll` | app/core/dsa/hash_map.py:96-129 | from a hash that is not negative every slot is probed, within hash + capacity probes |
| `ProbeSequence.VisitsAllIffNotNegative` | app/core/dsa/hash_map.py:9-9 | the documented full-period traversal holds at every capacity iff the hash is not negative |
| `ProbeSequence.PerturbSticksBy` | app/core/dsa/hash_map.py:127-129 | a negative perturbation sticks at -1 after as many shifts as the hash has base-32 digits |
| `ProbeSequence.ParitySticks` | app/core/dsa/hash_map.py:127-129 | from then on the parity of the slot is fixed |
| `ProbeSequence.NegativeHashStuck` | app/core/dsa/hash_map.py:127-129 | hash -8 only probes slots 0, 1 and 5 of a new table |
| `CompactHashMap.ProbeEnds` | app/core/dsa/hash_map.py:102-129 | a probe for a hash that is not negative reaches an empty slot |
| `CompactHashMap.AbsentIfUnmatched` | app/core/dsa/hash_map.py:104-121 | reaching an empty slot proves the key absent, tombstones included |
| `CompactHashMap.InsertKeeps` | app/core/dsa/hash_map.py:171-179 | inserting into a free or tombstone slot keeps every entry reachable |
| `CompactHashMap.KillKeeps` | app/core/dsa/hash_map.py:222-226 | a tombstone keeps every other probe chain intact |
| `CompactHashMap.LookupEndsIffNotNegative` | app/core/dsa/hash_map.py:87-129 | for CPython's integer hash: a lookup ends in every well-formed table iff the hash is not negative |
| `CompactHashMap.StorableIfNotNegative` | app/core/dsa/hash_map.py:161-179 | as long as no hash is negative every probe of a store ends, re-indexing included |
| `CompactHashMap.RebuildsIfNotNegative` | app/core/dsa/hash_map.py:131-159 | re-indexing ends for hashes that are not negative |
| `CompactHashMap.MinusEightNeverEnds` | app/core/dsa/hash_map.py:87-129 | storing 0, 1 and 5 in a new map gives a table in which a lookup of -8 never ends |
| `CompactHashMap.HashMap.constructor` | app/core/dsa/hash_map.py:52-69 | an empty table of power-of-two capacity |
| `CompactHashMap.HashMap.Lookup` | app/core/dsa/hash_map.py:87-129 | finds the entry of the key, or the slot where it belongs and a proof that it is absent |
| `CompactHashMap.HashMap.Resize` | app/core/dsa/hash_map.py:131-159 | doubling keeps contents and order and drops tombstones; asks only that its probes end |
| `CompactHashMap.HashMap.Place` | app/core/dsa/hash_map.py:143-159 | re-indexing one entry |
| `CompactHashMap.HashMap.SetItem` | app/core/dsa/hash_map.py:161-179 | refines insertion into an insertion-ordered map, at the first free slot; asks only that its probes end |
| `CompactHashMap.HashMap.Append` | app/core/dsa/hash_map.py:176-179 | adds an absent key at the free slot its lookup found |
| `CompactHashMap.HashMap.GetItem` | app/core/dsa/hash_map.py:181-187 | refines lookup in an insertion-ordered map whenever its probe ends |
| `CompactHashMap.HashMap.Delete` | app/core/dsa/hash_map.py:215-227 | refines removal from an insertion-ordered map whenever its probe ends |
| `OrderedMap.FindPut` | app/core/dsa/hash_map.py:161-187 | reading after writing, same key and other keys |
| `OrderedMap.FindRemove` | app/core/dsa/hash_map.py:181-227 | reading after deleting, same key and other keys |
| `OrderedMap.PutKeys` | app/core/dsa/hash_map.py:46-46 | updates keep insertion order, new keys go last |
| `OrderedMap.RemovePut` | app/core/dsa/hash_map.py:161-227 | deleting a key just inserted restores the map, order included |
| `DistributedLock.InvKept` | app/core/distributed_lock.py:75-192 | every step of every client keeps the protocol invariant |
| `DistributedLock.MutualExclusion` | app/core/distributed_lock.py:83-98 | in every reachable state a key has at most one live token |
| `DistributedLock.TtlIs` | app/core/distributed_lock.py:77-77 | the time to live in milliseconds, at least 100 |
| `DistributedLock.OnlyHolderReleases` | app/core/distributed_lock.py:32-38 | no step but a release by its own client removes a live lock |
| `DistributedLock.HolderKeepsLock` | app/core/distributed_lock.py:119-144 | from its SET to its expiry a token stays in place unless its own client releases |
| `DistributedLock.LeftBehindIff` | app/core/distributed_lock.py:172-192 | outside its block a client still has a live lock iff it lost track of a token that has not expired |
| `DistributedLock.StrayGrowsIff` | app/core/distributed_lock.py:83-144 | tokens are lost track of exactly by a SET that was applied and raised, and a release of a live lock that raised unapplied |
| `DistributedLock.NothingLeftBehind` | app/core/distributed_lock.py:172-192 | a client to which neither happened has no live lock outside its block |
| `DistributedLock.AppliedSetIsLeft` | app/core/distributed_lock.py:83-98 | a SET that was applied although its call raised leaves a lock that nobody releases |
| `DistributedLock.NoCircularWait` | app/core/distributed_lock.py:172-192 | if no key has two names, no reachable state has a circular wait |
| `DistributedLock.TwoNamesSelfWait` | app/core/distributed_lock.py:50-54 | two names for one key make a client wait for itself |
| `DistributedLock.DeadlockIffTwoNames` | app/core/distributed_lock.py:50-54 | a circular wait is reachable iff callers may use two names for one key |
| `DistributedLock.OneNamingForm` | app/core/distributed_lock.py:50-54 | only plain names, or only prefixed names, is enough |
| `LockClient.LockManager.SetNx` | app/core/distributed_lock.py:83-89 | SET NX on whatever the store has become meanwhile, answered or raising, applied or not |
| `LockClient.LockManager.Release` | app/core/distributed_lock.py:119-144 | deletes the key iff it still carries the token, and nothing else; errors are swallowed |
| `LockClient.LockManager.Acquire` | app/core/distributed_lock.py:75-117 | taken iff some try within the attempts, all before it answered and finding the key taken, is answered and finds it free; busy iff all tries find it taken; raises iff the first other try raises. The store and number of commands are those of these tries, and at most this token is lost track of |
| `LockClient.LockManager.ReplyIff` | app/core/distributed_lock.py:75-117 | the outcome of the retry loop is decided by the first try that does not find the key taken |
| `LockClient.LockManager.TakeInOrder` | app/core/distributed_lock.py:175-182 | takes all sorted names iff each is found free in turn within its attempts, otherwise a prefix; answered commands lose no token |
| `LockClient.LockManager.AloneGetsAll` | app/core/distributed_lock.py:161-192 | alone and with every command answered, all locks are obtained if their keys differ and are free |
| `LockClient.LockManager.Unwind` | app/core/distributed_lock.py:184-192 | releasing in reverse leaves none of the client's tokens but those lost track of, which are among the released ones; answered releases lose none |
| `LockClient.LockManager.AcquireMultiple` | app/core/distributed_lock.py:161-192 | the block runs iff every key is found free in its turn within the attempts; whatever others do between commands and however the block is left, every token of this call still stored is one it lost track of; if every command is answered, no token of the client is left |
| `LockClient.NotedAfterRelease` | app/core/distributed_lock.py:184-192 | unwinding one lock |
| `LockBackoff.Acquire` | app/core/distributed_lock.py:75-117 | at most ceil(timeout/0.025)+1 attempts, one for a timeout that is not positive, and failure only after the deadline |
| `LockBackoff.DelayBounds` | app/core/distributed_lock.py:76-117 | the base delay stays within [0.02, 0.20], grows, and reaches the maximum |
| `LockBackoff.DelayValues` | app/core/distributed_lock.py:80-117 | 20 ms growing by half each time |
| `LockBackoff.SleepsAddUp` | app/core/distributed_lock.py:104-117 | n sleeps begun before the deadline take at least 25 ms each |
| `CatalogPaging.PageIsExact` | app/repositories/catalog_repository.py:90-113 | a page is exactly the rows between its cursor and the cursor it hands out |
| `CatalogPaging.PageInOrder` | app/repositories/catalog_repository.py:90-113 | page size, order, and the next cursor is the last row |
| `CatalogPaging.NewestFirst` | app/repositories/catalog_repository.py:100-106 | newer rows first, among equal times larger ids first |
| `CatalogPaging.ZeroLimitStops` | app/repositories/catalog_repository.py:102-113 | limit 0 claims more rows but hands out no cursor |
| `CatalogPaging.WalkDescends` | app/repositories/catalog_repository.py:90-113 | whatever happens to the table between pages, rows come out in strictly descending order |
| `CatalogPaging.WalkNeverRepeats` | app/repositories/catalog_repository.py:90-113 | no row is returned twice |
| `CatalogPaging.WalkMissesNothing` | app/repositories/catalog_repository.py:90-113 | a finished walk has returned every row present throughout |
| `CatalogPaging.WalkInventsNothing` | app/repositories/catalog_repository.py:90-113 | every returned row was in the table of its page |
| `CatalogPaging.KeysetIsOffset` | app/repositories/catalog_repository.py:90-140 | on a fixed table each keyset page is the OFFSET page |
| `CatalogPaging.OffsetPageIs` | app/repositories/catalog_repository.py:133-140 | an OFFSET page holds the next `limit` rows after `offset`, none past the end |
| `CatalogPaging.FixedWalk` | app/repositories/catalog_repository.py:90-140 | on a fixed table the walk ends after exactly ceil(n / limit) pages and has listed the table |
| `KafkaLog.Producer.SendAndWait` | app/core/kafka.py:103-136 | appends one record at the next offset of the chosen partition, nothing elsewhere |
| `KafkaLog.Consumer.Start` | app/core/kafka_consumer.py:136-161 | assigns all partitions of the topics and starts at the committed offset or the reset policy |
| `KafkaLog.Consumer.GetMany` | app/core/kafka_consumer.py:200-242 | per partition the batch is the part of the log from the old position to the new one, at most min(max_records, max_poll_records) records in all; below the limit every active partition is read to its end, and earlier partitions are read out first |
| `KafkaLog.PollAnswers` | app/core/kafka_consumer.py:214-242 | the same for the poll as a function |
| `KafkaLog.GotIsNext` | app/core/kafka_consumer.py:223-240 | one partition yields the next records, as many as there is room for or all that are left |
| `KafkaLog.Consumer.Drain` | app/core/kafka_consumer.py:219-240 | one partition: the contiguous records from the position up to the room left |
| `KafkaLog.Consumer.Commit` | app/core/kafka_consumer.py:244-272 | without offsets: commits the positions of the assigned partitions for the group only |
| `KafkaLog.Consumer.CommitOffsets` | app/core/kafka_consumer.py:253-261 | with offsets: commits exactly those for the group only |
| `KafkaLog.Consumer.Seek` | app/core/kafka_consumer.py:184-189 | moves one assigned partition, clamped at 0 |
| `KafkaLog.Consumer.SeekToCommitted` | app/core/kafka_consumer.py:191-198 | rewinds every assigned partition to its committed offset |
| `ConsumerGroups.PollStepKeeps` | app/core/kafka_consumer.py:200-242 | a poll keeps: everything below a position or commit was returned, in order |
| `ConsumerGroups.PollAdds` | app/core/kafka_consumer.py:200-242 | a poll step answers as above, adds one stretch of offsets per partition to what its group has seen, and changes nothing else |
| `ConsumerGroups.PositionsAfter` | app/core/kafka_consumer.py:136-198 | starts and rewinds leave assigned partitions at the committed offset, or at the start or end of the log |
| `ConsumerGroups.ExtendRunIff` | app/core/kafka_consumer.py:223-240 | returning a stretch leaves no gap iff the record just before it was returned |
| `ConsumerGroups.ReachedIffJustBefore` | app/core/kafka_consumer.py:200-242 | everything below an offset was returned iff the record just before it was |
| `ConsumerGroups.PromiseKeptIffGuarded` | app/core/kafka_consumer.py:136-272 | a step keeps the promise (below a committed offset everything was returned, first returns follow the log) iff it is no commit for, and no poll returning records from, an offset whose record just before was not returned |
| `ConsumerGroups.AlwaysPromisedIffGuarded` | app/core/kafka_consumer.py:136-272 | over every run the promise holds in every state iff every commit and poll is so guarded; seeks, starts and sends are free |
| `ConsumerGroups.InvKeptIffSafe` | app/core/kafka_consumer.py:136-272 | a step keeps the promise together with fetch positions that pass no unreturned record iff it moves positions and commits only to where the record just before was returned |
| `ConsumerGroups.AlwaysInvIffSafe` | app/core/kafka_consumer.py:136-272 | over every run fetch positions, too, never pass an unreturned record iff every step is so |
| `ConsumerGroups.CautiousIsGuarded` | app/core/kafka_consumer.py:136-272 | runs with earliest starts, seeks back and commits without offsets are guarded |
| `ConsumerGroups.CautiousIsSafe` | app/core/kafka_consumer.py:136-272 | such steps move no fetch position past an unreturned record |
| `ConsumerGroups.SafeIsGuarded` | app/core/kafka_consumer.py:200-272 | while fetch positions pass no unreturned record, polls and plain commits are guarded |
| `ConsumerGroups.ForwardSeekSkips` | app/core/kafka_consumer.py:184-272 | a forward seek and a commit leave a record below the committed offset that was never returned |
| `ConsumerGroups.RewindIsSafe` | app/core/kafka_consumer.py:184-189 | seeking back is always safe |
| `ConsumerGroups.CommittedWasReturned` | app/core/kafka_consumer.py:136-272 | over guarded runs every record below a committed offset was returned to some consumer of the group |
| `ConsumerGroups.FirstReturnsInOrder` | app/core/kafka_consumer.py:200-242 | over guarded runs a record is first returned after all earlier ones of its partition |
| `ConsumerGroups.LogsGrow` | app/core/kafka.py:113-121 | partition logs only grow at the end |
| `ConsumerGroups.SameKeyInSendOrder` | app/core/kafka.py:90-121 | over guarded runs records with one key are first returned in send order |
| `TopicRouting.MatchIffCuts` | app/core/rabbitmq.py:173-196 | a key matches iff it can be cut into consecutive slices that fit the pattern words |
| `TopicRouting.AgreesWithAmqpIff` | app/core/rabbitmq.py:161-196 | routing agrees with section 3.1.3.3 of AMQP 0-9-1 on all keys iff no literal word has a `*`, a `?` or a closed bracket, or the pattern has neither `*` nor `#` as a word and a word has a class that holds no character |
| `TopicRouting.TokensAgreeIff` | app/core/rabbitmq.py:173-196 | without the early returns: iff no literal word has a `*`, a `?` or a closed bracket |
| `TopicRouting.OtherKeyMatches` | app/core/rabbitmq.py:161-196 | an all-literal pattern with glob characters, each word of which some word fits, receives a key other than itself |
| `TopicRouting.WildcardDisagrees` | app/core/rabbitmq.py:161-196 | beside a `*` or `#` word every literal with glob characters makes routing disagree |
| `TopicRouting.FitsOnlyItselfIff` | app/core/rabbitmq.py:192-196 | compared as a glob, a word fits only itself iff it has none of these |
| `Glob.MatchesIffCut` | app/core/rabbitmq.py:192-196 | a word matches a glob iff it can be cut into pieces, any for a star and one accepted character for every other item |
| `Glob.ItemsAre` | app/core/rabbitmq.py:192-196 | how a glob is read: stars, question marks, closed brackets and everything else |
| `TopicRouting.QuestionMarkDisagrees` | app/core/rabbitmq.py:192-196 | the binding `v?` receives `v1`, which AMQP forbids |
| `Glob.OtherWordFits` | app/core/rabbitmq.py:192-196 | a word with glob characters that fits itself is fitted by another word too |
| `Glob.FitsItselfIff` | app/core/rabbitmq.py:192-196 | a word without `*` fits itself iff no bracket is closed |
| `Glob.FitsNothing` | app/core/rabbitmq.py:192-196 | a word with a class that holds no character is fitted by no word |
| `Glob.SomeWordFits` | app/core/rabbitmq.py:192-196 | any other word is fitted by some word |
| `TopicRouting.DisagreementKey` | app/core/rabbitmq.py:186-196 | a literal read as a glob makes some key come out differently, and beside a `*` or `#` word a key other than the pattern itself |
| `TopicRouting.ExactLiteralsAgree` | app/core/rabbitmq.py:173-196 | with literals that fit only themselves glob and equality matching agree |
| `TopicRouting.ShortcutsSoundIff` | app/core/rabbitmq.py:161-170 | the early returns never change the answer iff the pattern's words match themselves |
| `TopicRouting.ShortcutsSoundIffNoBrackets` | app/core/rabbitmq.py:161-170 | for patterns without `#` and without `*` inside a word: iff no bracket is closed |
| `TopicRouting.ShortcutsAreSound` | app/core/rabbitmq.py:161-170 | for every pattern without a closed bracket the early returns never change the answer |
| `TopicRouting.PatternMatchesItself` | app/core/rabbitmq.py:163-170 | a pattern matches itself word by word |
| `AmqpBroker.Exchange.AddBinding` | app/core/rabbitmq.py:110-117 | binds once, per pattern or for fanout |
| `AmqpBroker.Exchange.Targets` | app/core/rabbitmq.py:124-142 | the list of targets holds each selected queue once and no other |
| `AmqpBroker.Exchange.Publish` | app/core/rabbitmq.py:119-152 | one fresh copy at the end of each selected queue, all other queues unchanged |
| `AmqpBroker.Queue.Get` | app/core/rabbitmq.py:82-91 | takes the head, none on an empty queue |
| `AmqpBroker.Message.Nack` | app/core/rabbitmq.py:54-59 | requeues at the head if asked to |
| `AmqpBroker.GetThenRequeue` | app/core/rabbitmq.py:54-91 | get followed by a requeueing nack restores the queue |
| `Ledger.Repository.CreateAccount` | app/repositories/ledger_repository.py:358-378 | adds the account and its number, keeps the books |
| `Ledger.Repository.CreateJournalEntry` | app/repositories/ledger_repository.py:406-442 | stores the entry, appends exactly its legs, and keeps the postings the concatenation of the entries |
| `Ledger.Repository.GetPostingsByAccountId` | app/repositories/ledger_repository.py:444-445 | the postings of the account, in order |
| `Ledger.OfIsFilter` | app/repositories/ledger_repository.py:444-445 | the postings of an account are those that name it, in their order |
| `Ledger.Repository.GetAccountBalanceAggregates` | app/repositories/ledger_repository.py:447-456 | both sums are folds of the account's postings |
| `Ledger.RecordJournalEntry` | app/services/ledger_domain_service.py:121-208 | posts iff every check passes, reports the first check that fails, changes nothing on rejection, keeps the books |
| `Ledger.SumLegs` | app/services/ledger_domain_service.py:146-159 | debit and credit sums, or a leg that is not positive |
| `Ledger.CheckAccounts` | app/services/ledger_domain_service.py:180-193 | the first account that is missing or inactive |
| `Ledger.PostedKeepsBooks` | app/services/ledger_domain_service.py:161-208 | a balanced entry keeps total debits equal to total credits |
| `Ledger.SumOverAccounts` | app/repositories/ledger_repository.py:447-456 | summing per account counts every posting exactly once |
| `Ledger.TrialBalance` | app/repositories/ledger_repository.py:406-456 | over all accounts debit totals equal credit totals |
| `Ledger.AccountingEquation` | app/services/ledger_domain_service.py:210-241 | assets and expenses equal liabilities, equity and revenue |
| `Ledger.PostingMovesBalance` | app/services/ledger_domain_service.py:210-228 | a debit raises the balance of assets and expenses and lowers the others, a credit does the opposite, other accounts are unaffected |
| `Ledger.GetAccountBalance` | app/services/ledger_domain_service.py:210-228 | the balance on the normal side of the account, none for an unknown one |
| `Ledger.CurrencyBalancesIff` | app/services/ledger_domain_service.py:146-178 | per currency the trial balance holds after every entry iff every entry balances within that currency |
| `Ledger.TwoCurrencyEntry` | app/services/ledger_domain_service.py:146-178 | in a new ledger the service posts an entry that balances in neither of its two currencies |
| `UnitOfWork.InMemoryUnitOfWork.Enter` | app/core/unit_of_work.py:272-294 | takes a snapshot that shares no dictionary with the live state |
| `UnitOfWork.InMemoryUnitOfWork.ClearSnapshots` | app/core/unit_of_work.py:306-327 | forgets the snapshot, so that nothing can be restored |
| `UnitOfWork.InMemoryUnitOfWork.DoRollback` | app/core/unit_of_work.py:329-369 | restores the snapshot, again without sharing |
| `UnitOfWork.InMemoryUnitOfWork.Do` | app/core/unit_of_work.py:272-369 | one repository call on the heap is one step on values and touches no other user |
| `UnitOfWork.InMemoryUnitOfWork.RunBlock` | app/core/unit_of_work.py:272-304 | a whole block on the heap equals the block on values; stored users keep the last in-place change whatever is rolled back |
| `UnitOfWork.RaiseBeforeCommit` | app/core/unit_of_work.py:296-304 | a block that raises before a commit leaves every store and index as it was |
| `UnitOfWork.RaiseAfterCommit` | app/core/unit_of_work.py:306-327 | after a commit neither a raise nor a rollback undoes anything |
| `UnitOfWork.StepTakesEffect` | app/core/unit_of_work.py:272-369 | what each operation changes, and that it changes nothing else |
| `UnitOfWork.RollbackStartsOver` | app/core/unit_of_work.py:329-369 | after a rollback before any commit the block goes on as if it had just begun |
| `UnitOfWork.InPlaceChangeSurvives` | app/repositories/user_repository.py:265-302 | a user changed in place keeps the change while the index goes back |
| `Identifiers.UnpackV7` | app/core/identifiers.py:33-104 | version 7, variant 0b10, and the millisecond, counter and random fields come back, as in section 5.7 of RFC 9562 |
| `Identifiers.V7IncreasesIff` | app/core/identifiers.py:45-77 | the next UUIDv7 is larger iff the clock moved on or the counter has room |
| `Identifiers.V7RunIncreasesIff` | app/core/identifiers.py:45-77 | over every run, however the clock moves, identifiers increase throughout iff the counter never wraps |
| `Identifiers.V7StallsIncrease` | app/core/identifiers.py:45-77 | while the counter has room identifiers increase under a stalled or regressing clock |
| `Identifiers.V7HeadroomOf3072` | app/core/identifiers.py:45-77 | the first identifier of a millisecond is followed by 3072 larger ones, however the clock moves |
| `Identifiers.UuidV7Generator.Generate` | app/core/identifiers.py:33-77 | the generator follows the specification state and packs it |
| `Identifiers.UlidTimestamp` | app/core/identifiers.py:111-173 | decoding ten characters gives the 48-bit millisecond field back |
| `Identifiers.UlidOrder` | app/core/identifiers.py:111-147 | string order is the order by time and entropy |
| `Identifiers.UlidIncreasesIff` | app/core/identifiers.py:111-147 | the next ULID is larger, clock regress included, iff the clock moved on or the entropy does not wrap |
| `Identifiers.UlidRunAscendsIff` | app/core/identifiers.py:111-147 | over every run, however the clock moves, ULIDs ascend as strings iff the entropy never wraps |
| `Identifiers.UlidHeadroom` | app/core/identifiers.py:111-147 | from fresh entropy the next 2^80 - 2^75 ULIDs ascend whatever the clock does |
| `Identifiers.UlidGenerator.Generate` | app/core/identifiers.py:111-147 | the generator follows the specification state and returns its text |
| `Identifiers.EncodeUlid` | app/core/identifiers.py:138-147 | the character loop writes the 26 base-32 digits |
| `Identifiers.DecodeDigits` | app/core/identifiers.py:162-171 | the accumulating decoder, failing iff a character is invalid |
| `Identifiers.ExtractUlid` | app/core/identifiers.py:150-173 | the timestamp of a ULID and exactly when it is rejected |
| `Identifiers.GenerateThenExtract` | app/core/identifiers.py:111-173 | a generated ULID decodes to the generator's millisecond |
| `Base32.ValueEncode` | app/core/identifiers.py:138-171 | decoding inverts encoding for every number that fits |
| `Base32.EncodeOrder` | app/core/identifiers.py:138-147 | encodings compare as strings iff the numbers compare |
| `Idempotency.AtomicIsUninterrupted` | app/core/idempotency.py:87-139 | the atomic check is the three commands without interruption |
| `Idempotency.OneExecutorKeptIff` | app/core/idempotency.py:87-173 | a command keeps the one-executor invariant iff it takes over no failure that is gone or whose request had charged |
| `Idempotency.AtMostOneIffSafeRetakes` | app/core/idempotency.py:87-173 | over every interleaving of single commands: never two requests that execute or have charged iff every retake of a failure finds it still there and nothing charged |
| `Idempotency.SafeRetakesChargeOnce` | app/routers/payment_router.py:40-83 | the promise of no double spending over every such run |
| `Idempotency.UnsafeRetakeChargesTwice` | app/routers/payment_router.py:63-83 | any other run can go on, from its first unsafe retake, to a second charge |
| `Idempotency.UnrecordedChargeIsRepeated` | app/routers/payment_router.py:63-83 | a charge whose success could not be recorded is recorded as failed, and the retry charges again |
| `Idempotency.NoFailuresAreSafe` | app/core/idempotency.py:87-158 | without a recorded failure every interleaving is safe |
| `Idempotency.AtomicChecksAreSafe` | app/core/idempotency.py:87-173 | with atomic checks, failures allowed, never two that execute or have charged, as long as no request that charged is recorded as failed |
| `Idempotency.ReplaysTheExecutor` | app/core/idempotency.py:113-139 | with safe retakes every replay is the response of the one charge, for the same hash |
| `Idempotency.FailureAllowsTwo` | app/core/idempotency.py:136-139 | with a failure and separate commands two requests can both execute and charge |
| `Idempotency.IdempotencyManager.CheckOrAcquire` | app/core/idempotency.py:62-139 | undisturbed, the method is the atomic step of the protocol: 422 for another payload, 409 while in progress, a replay once completed, execution otherwise; a key that expires in between is taken |
| `Idempotency.IdempotencyManager.RecordThenCheck` | app/core/idempotency.py:62-158 | a recorded success is replayed for the same hash and refused for another |
| `UserStore.CreateKeepsIff` | app/repositories/user_repository.py:168-220 | creating keeps both indexes exact iff address and name are unused |
| `UserStore.UpdateKeepsIff` | app/repositories/user_repository.py:231-347 | updating keeps both indexes exact iff nobody else has the new address or name |
| `UserStore.UpdateTakesEffect` | app/repositories/user_repository.py:231-302 | an update gives every named field its new value and leaves all other fields, the version and all other users alone; an unknown id changes nothing |
| `UserStore.OptimisticTakesEffect` | app/repositories/user_repository.py:304-347 | the same for the optimistic update, which happens iff the version is the expected one and raises it by one |
| `UserStore.UpdateMovesLookups` | app/repositories/user_repository.py:265-276 | with free names the new address and name lead to the user, abandoned ones to nobody, all others where they led |
| `UserStore.CreateTakesEffect` | app/repositories/user_repository.py:168-220 | a created user has the next id, version 1 and the fields passed, and is found by address and name |
| `UserStore.DeleteTakesEffect` | app/repositories/user_repository.py:373-385 | a deleted user is gone from the store and both lookups, nobody else is |
| `UserStore.FieldUpdatesTakeEffect` | app/repositories/user_repository.py:222-371 | a new national id or new permissions raise the version and touch no index and no other user |
| `UserStore.DeleteKeeps` | app/repositories/user_repository.py:373-385 | deleting keeps both indexes exact |
| `UserStore.ExactKeptIff` | app/repositories/user_repository.py:168-385 | a call keeps both indexes exact iff it passes free addresses and names |
| `UserStore.RunExact` | app/repositories/user_repository.py:168-385 | over every sequence of such calls the indexes are exact inverses of the store |
| `UserStore.LookupIsScan` | app/repositories/user_repository.py:391-396 | lookup by address is a linear scan |
| `UserStore.UsernameLookupIsScan` | app/repositories/user_repository.py:398-403 | lookup by name is a linear scan |
| `UserStore.OneWinnerPerVersion` | app/repositories/user_repository.py:304-347 | of all optimistic updates with one id and expected version at most one ever succeeds |
| `UserStore.UserRepository.CreateUser` | app/repositories/user_repository.py:168-220 | the heap method refines the operation on values |
| `UserStore.UserRepository.UpdateUser` | app/repositories/user_repository.py:231-302 | refines, changing the stored entity in place |
| `UserStore.UserRepository.UpdateWithOptimisticLock` | app/repositories/user_repository.py:304-347 | refines; refused iff the version differs or the id is unknown |
| `UserStore.UserRepository.UpdatePermissionsOf` | app/repositories/user_repository.py:349-371 | refines; the rebuilt entity has no national id |
| `UserStore.PermissionsKeepRestIff` | app/repositories/user_repository.py:349-371 | the rest of the user is kept iff there was no national id |
| `UserStore.UserRepository.DeleteUser` | app/repositories/user_repository.py:373-385 | refines, index entries included |
| `UserStore.UserRepository.GetByEmail` | app/repositories/user_repository.py:391-396 | refines lookup through the index |
| `FraudVelocity.VelocityService.RecordSuccessfulTransfer` | app/services/fraud_detection_service.py:134-161 | one step of each storage the call reaches, both if the pipeline was applied and raised; the other is untouched |
| `FraudVelocity.VelocityLog.Append` | app/services/fraud_detection_service.py:144-161 | appends with the expiry, as one step of the stored log |
| `FraudVelocity.VelocityService.GetAccountVelocity` | app/services/fraud_detection_service.py:163-208 | prunes each storage the call reaches, both if ZRANGE raises after the pruning; count and sum from the one that answers |
| `FraudVelocity.VelocityLog.Prune` | app/services/fraud_detection_service.py:173-208 | prunes, and returns count and sum of what is kept |
| `FraudVelocity.LogIsWindow` | app/services/fraud_detection_service.py:134-208 | at every point the stored log is a window of the full history |
| `FraudVelocity.LookupIsExact` | app/services/fraud_detection_service.py:163-208 | a lookup of at most 600 s is exact if no earlier lookup was shorter |
| `FraudVelocity.AnswerIsExact` | app/services/fraud_detection_service.py:163-208 | its count and volume are then the number and the sum of the transfers of the whole history in the window |
| `FraudVelocity.RecordRaisesAnswer` | app/services/fraud_detection_service.py:134-208 | a transfer recorded inside the window raises count and volume of the next answer by one and by its amount, one outside by nothing |
| `FraudVelocity.FirstAnswers` | app/services/fraud_detection_service.py:134-208 | the first answers: nothing, then the one transfer if it lies in the window |
| `FraudVelocity.VolumeIsSum` | app/services/fraud_detection_service.py:186-208 | the volume is the sum: nothing, one transfer, and transfers put together |
| `FraudVelocity.BurstIsFlagged` | app/services/fraud_detection_service.py:51-132 | 60000 recorded and 45000 wanted within five minutes: flagged with score 40 |
| `FraudVelocity.LookupExactIff` | app/services/fraud_detection_service.py:163-208 | a lookup is exact, transfer by transfer, iff none lies between the wanted start and the horizon of pruning and expiry |
| `FraudVelocity.FallbackExactIff` | app/services/fraud_detection_service.py:144-208 | with fallbacks an answer counts the whole history of its window iff it is exact for its storage and the other storage alone recorded nothing in the window; then its volume is exact as well |
| `FraudVelocity.FallbackTransferUnseen` | app/services/fraud_detection_service.py:151-161 | a transfer recorded while Redis was failing is unseen by the next lookup |
| `FraudVelocity.EvaluateTransfer` | app/services/fraud_detection_service.py:51-132 | the accumulated score and decision, and exactly when each rule is reported |
| `FraudVelocity.ScoreIsDocumentedIff` | app/services/fraud_detection_service.py:7-7 | the score is the documented one iff not both kinds of burst occur |
| `FraudVelocity.VerdictIff` | app/services/fraud_detection_service.py:88-116 | rejected iff blacklisted or two of the three other hits, flagged iff exactly one |
| `FraudVelocity.RiskIsMonotone` | app/services/fraud_detection_service.py:62-116 | more transfers anywhere in the history or a larger amount never lower score or verdict |
| `MoneyFx.RoundIffNearest` | app/core/money.py:54-54 | half-even rounding is the one nearest unit that is even on ties |
| `MoneyFx.RoundIsOdd` | app/core/money.py:54-54 | rounding commutes with negation |
| `MoneyFx.RoundIsMonotone` | app/core/money.py:54-54 | rounding keeps order |
| `MoneyFx.RebuildIsIdentity` | app/core/money.py:28-57 | an amount is built within half a unit, and building it again changes nothing |
| `MoneyFx.AddIsExact` | app/core/money.py:63-81 | sums that fit 28 digits are exact and subtraction undoes addition |
| `MoneyFx.MismatchIsRefused` | app/core/money.py:63-81 | money of different currencies is neither added nor subtracted |
| `MoneyFx.ConvertIsNearest` | app/services/fx_conversion_service.py:42-103 | a conversion lands on the unit nearest to the exact product, in the target currency, second rounding included |
| `MoneyFx.SameCurrencyIsKept` | app/services/fx_conversion_service.py:85-86 | converting to the same currency changes nothing and applies the rate 1 |
| `MoneyFx.ConversionRefusedIff` | app/services/fx_conversion_service.py:74-103 | which error a conversion is refused with, and when |
| `MoneyFx.FitContextIsNearest` | app/services/fx_conversion_service.py:88-90 | a product keeps 28 significant digits, rounded to the nearest |
| `MoneyFx.ConvertIsMonotone` | app/services/fx_conversion_service.py:88-92 | at one rate more money never converts to less |
| `MoneyFx.RoundTripError` | app/services/fx_conversion_service.py:85-103 | two conversions land within (r' + 1) / 2 units of m r r' |
| `DeadLetter.Service.Process` | app/services/dlq_service.py:61-128 | succeeds iff some attempt does, otherwise quarantines with the last error; acknowledged exactly once unless the last acknowledgement raises; total backoff base (2^(n-1) - 1) |
| `DeadLetter.Service.Partition` | app/services/dlq_service.py:140-147 | the two lists are the first `limit` matches and the rest, in order |
| `DeadLetter.Service.Republish` | app/services/dlq_service.py:149-158 | candidates go out in order, each with its topic and payload, until a call raises |
| `DeadLetter.Service.RedriveMessages` | app/services/dlq_service.py:130-161 | republishes what it removes, and removes nothing if a call raises |
| `DeadLetter.Service.PurgeDlq` | app/services/dlq_service.py:163-175 | removes exactly the matches and counts them |
| `DeadLetter.TakenIsPrefix` | app/services/dlq_service.py:143-147 | a redrive takes exactly the first `limit` matches |
| `DeadLetter.RedriveCut` | app/services/dlq_service.py:140-147 | a redrive splits the store up to where its limit is met and leaves the rest as it is |
| `DeadLetter.FiltersAre` | app/services/dlq_service.py:163-175 | what matching a topic keeps and drops |
| `DeadLetter.SplitKeepsOrder` | app/services/dlq_service.py:143-147 | per topic, what is taken comes before what is left |
| `DeadLetter.AlwaysConservedIff` | app/services/dlq_service.py:48-175 | over every interleaving of quarantines, purges and the steps of redrives: each envelope leaves once, in arrival order per topic, iff every redrive that awaits rebinds the store it read and none raises after a send |
| `DeadLetter.StepConservesIff` | app/services/dlq_service.py:48-175 | the same for one step |
| `DeadLetter.RebindConservesIff` | app/services/dlq_service.py:143-160 | per topic, ending a redrive conserves iff the store is the one it read |
| `DeadLetter.RaiseConservesIff` | app/services/dlq_service.py:149-158 | a redrive that raises conserves iff nothing had been sent |
| `DeadLetter.UndisturbedIsTimely` | app/services/dlq_service.py:130-161 | redrives that nothing falls into are of this kind |
| `DeadLetter.OverlapSendsTwice` | app/services/dlq_service.py:149-160 | two overlapping redrives send an envelope twice |
| `DeadLetter.ArrivalIsLost` | app/services/dlq_service.py:149-160 | an envelope that arrives during a redrive is lost |
| `DeadLetter.PurgedComesBack` | app/services/dlq_service.py:149-174 | an envelope of another topic that is purged while a redrive awaits its send comes back |
| `TokenRotation.AuthService.Login` | app/services/auth_service.py:51-71 | opens a family whose active token is the one returned |
| `TokenRotation.AuthService.RefreshTokens` | app/services/auth_service.py:73-134 | each rejection and its exact cause; otherwise one rotation step of the protocol |
| `TokenRotation.AuthService.Logout` | app/services/auth_service.py:136-145 | revokes exactly the family of the token |
| `TokenRotation.InvKept` | app/services/auth_service.py:34-145 | every step but a late write keeps the rotation invariant |
| `TokenRotation.SafeKeptIff` | app/services/auth_service.py:92-128 | a step keeps the promises below iff it is not a write after the token it read stopped being active |
| `TokenRotation.RunSafeIff` | app/services/auth_service.py:34-145 | over every interleaving the promises hold iff no refresh writes late |
| `TokenRotation.ExclusiveIsTimely` | app/services/auth_service.py:92-128 | excluding refreshes of one family is enough; families interleave freely |
| `TokenRotation.EachTokenSucceedsOnce` | app/services/auth_service.py:92-128 | without late writes a refresh token succeeds at most once |
| `TokenRotation.EndedFamilyStaysEnded` | app/services/auth_service.py:103-115 | without late writes no token of a family succeeds after a reuse, a logout or expiry |
| `TokenRotation.RoleIsTheLoginRole` | app/services/auth_service.py:119-120 | refreshed access tokens carry the role of the login |
| `TokenRotation.RefreshSucceedsIff` | app/services/auth_service.py:92-128 | a refresh succeeds iff its token is the active one, and otherwise the family is gone |
| `TokenRotation.StaleTokenEndsFamily` | app/services/auth_service.py:103-115 | presenting a rotated token ends its family |
| `TokenRotation.InterleavedRefreshSucceedsTwice` | app/services/auth_service.py:93-128 | a run in which a second refresh reads before the first writes and both succeed |
| `TokenRotation.InterleavedLogoutIsUndone` | app/services/auth_service.py:93-142 | a run in which a logout between read and write is undone |
| `ViewCounter.AnalyticsService.RecordView` | app/services/analytics_service.py:36-60 | where the view is counted for each combination of calls that raise, applied or not, the database included |
| `ViewCounter.AnalyticsService.IncrementViewsBatch` | app/repositories/user_repository.py:436-445 | adds the whole batch to the persistent counters |
| `ViewCounter.AnalyticsService.SyncPendingViews` | app/services/analytics_service.py:62-109 | moves all pending counts to the persistent ones and reports records and total; a failing database, or an extraction that was applied and raised, loses them |
| `ViewCounter.FlushAddsTotal` | app/services/analytics_service.py:100-109 | a flush raises the persistent counters by the total it reports |
| `ViewCounter.AnalyticsService.GetUserViews` | app/services/analytics_service.py:111-130 | persistent plus pending, none pending if Redis fails |
| `ViewCounter.RunAccounts` | app/services/analytics_service.py:36-109 | recorded plus doubled equals persistent plus pending plus in flight plus lost, at every step of every interleaving |
| `ViewCounter.AlwaysWholeIff` | app/services/analytics_service.py:36-109 | over every interleaving: in every state recorded equals persistent plus pending plus in flight iff no step falls back after counting and none drops a view of the user |
| `ViewCounter.WholeKeptIff` | app/services/analytics_service.py:36-109 | the same for one step |
| `ViewCounter.FailuresMiscount` | app/services/analytics_service.py:43-102 | one view counted twice after a failing SADD, one lost with a failing database update |
| `ViewCounter.ViewsConserved` | app/services/analytics_service.py:36-109 | if only a HINCRBY that is not applied fails, nothing is lost or doubled, and pending users are dirty or about to be marked |
| `ViewCounter.TotalNeverOvercounts` | app/services/analytics_service.py:111-130 | a total read in two calls never exceeds the views recorded, and is exact iff no flush added views of the user in between and none are in flight |

## Left out

- HTTP routers, schemas, ORM models, migrations, settings, logging, metrics, health probes and connection set-up: declarative shapes and I/O.
- The SQLAlchemy repositories and unit of work: their behaviour is the database's; the in-memory ones are modelled, and the two catalog queries as filtered sorted sequences.
- Cryptography and hashing (passwords, JWT signatures, request digests, partition digests): parameters, or equality of the decoded value.
- Parsing of Python files and rules 1, 2, 3 and 5 of the linter: the model starts from the indexed modules and import edges, with edges only out of indexed modules.
- Floating point: clocks are integer milliseconds or reals, delays are reals.
- Task cancellation, which the source's exception handlers do not catch.
- The cursor codec of the catalog: a cursor is the sort key it encodes.
- `str.upper` and `str.strip`: parameters with the properties used stated.
- Expiry of idempotency keys: the statements are about one key before it expires.
- Division and comparison of money: they would only add easy members; exponent limits of the decimal context are not modelled.
- Message tracebacks, timestamps and log lines of the dead-letter queue.
- The direct forms of `CompactHashMap` beside item access and deletion (views, statistics, clearing): easy members.
- Kafka topics with explicit negative partitions, and clearing the shared log.
- UnitOfWork.InMemoryUnitOfWork.Do: repository calls are writes to a named dictionary attribute, a counter or the posting list, not the individual repository methods.
- FraudVelocity.LookupIsExact: lookups of at least 1 ms.
- ViewCounter.AnalyticsService.SyncPendingViews: keys and counts of the hash are integers, which is what recording writes, so the branch for unreadable entries is not modelled.
- LockClient.LockManager.Acquire: counts attempts instead of reading the clock; `LockBackoff.Acquire` bounds the attempts by the timeout.
- Glob.FitsItselfIff: which characters a bracket holds is a parameter, as it is decided by a library's regular expressions.
- TopicRouting.ShortcutsSoundIffNoBrackets: with `#`, or with `*` and a bracket in one word, whether a pattern matches itself depends on what its brackets hold.
- CompactHashMap.HashMap.SetItem: the precondition is that its loops end; it is met whenever no hash is negative.
- KafkaLog.Consumer.CommitOffsets: explicit offsets are not negative.
