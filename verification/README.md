# Ride-the-API: verified kernels

Ride-the-API is an intercepting proxy that learns how a device talks to its vendor's cloud and
then answers for the cloud. This project models the parts of it that are written by hand and keep
invariants, one Dafny module for each, and proves what they promise over every input and every run.

| modules | program part |
|---|---|
| `ClientHello`, `ClientHelloWire`, `ClientHelloVerdicts`, `ServerNames`, `HelloReader`, `ClientHelloWaiting` | reassembly of a TLS ClientHello from TCP reads and TLS records, and the walk to the server name (RFC 8446 sections 4.1.2 and 5.1, RFC 6066 section 3) |
| `Correlation`, `PendingMemory`, `UnkeyedFallback` | pairing responses with captured requests, in a bounded deque and a persisted table |
| `BufferStore`, `BufferAccounts`, `SharedBuffer`, `FlushCycle`, `Snapshots`, `KeyReuse`, `BackendSwitch`, `SwitchDuringFlush`, `Retention`, `SessionGate` | the capture buffer: byte counter, sequence allocator, learning flush, migration, pruning, the gate on the in-memory database |
| `DnsDiscovery`, `DnsLedger`, `MatchTracker` | counters batched in memory and moved to storage |
| `AutoSwitch`, `ModeChanges`, `CircuitBreaker`, `Watchdog` | control state machines |
| `JsonPath`, `JsonPathText`, `SecretMask` | updates of JSON and configuration trees |

`Options` and `Sequences` are helpers.

## How the model is built

Objects whose methods update fields are classes with those fields. Each method is proved equal to a
function of the old state, and the lemmas are about these functions: those named `..Exactly` say what
an operation does without using its function, in both directions. A run is a sequence of events
over a `World`: the state, plus a record of what happened that the program does not keep. `Legal`
runs contain exactly the events the program allows, in every interleaving. What the outside decides
is a parameter or part of an event: what a read returns, the clock, the ids and replies of the
database, whether a write fails, whether the model's analysis came back.

A loop over positions in a buffer (the ClientHello parsers) is proved against a recursive function of
the remaining bytes, and that function against a serializer.

## Where the code and its documentation differ

The model follows the code. For each difference a lemma says exactly when the code does what one
would expect, or what a caller has to see to, and another gives an input or a run that fails.

- `_client_hello_message` says callers do not wait for data that cannot provide a server name
  (`core/tls_mitm.py:270-272`). They do, for up to four bytes that cannot start a handshake record
  (`WaitsInVain`), and in other states; `WaitingHelpsExactly` says when waiting can help.
- A ClientHello of acceptable size is missed when its records take more than 64 KiB on the wire
  (`HostSeenExactly`): one of 11 KB in one-byte records is (`OneByteRecordsHideHost`).
- Without a key, `match_response` documents the oldest pending request. As long as memory loses nothing
  it is (`OldestWithoutLoss`). After a restart or an eviction it is, if and only if no pending row
  outside memory is older than all memory offers (`OldestPendingExactly`, `RestartHidesOlder`). From the
  table it is the newest (`FallbackIsNewest`, `FallbackTakesTheYounger`), and it may find none although
  one is pending, since only ten rows are looked at (`FallbackMayFindExactly`,
  `FallbackAlwaysFindsExactly`), as after eleven registrations and a restart (`CrowdedOut`).
- The numbering of pairs is documented as safe, one above the highest in the table
  (`core/buffer/sqlalchemy_store.py:263-273`). But each store object caches the last number it gave, and
  the import of captures makes a store of its own. An add keeps the order if and only if its store's cache
  is not behind the table (`AddKeepsOrderExactly`), which holds in every run in which no store adds on a
  cache that another store has overtaken (`OrderStaysRight`). Otherwise numbers repeat and the queue is
  read out of order (`SecondStoreDisorders`). The byte counter stays right with any number of stores
  (`AccountsStayRight`).
- A successful flush is documented to mark exactly the pairs it analysed. A pair captured during the
  analysis can be marked unanalysed when it is stored under the key of a deleted pair, which SQLite
  gives out again without AUTOINCREMENT (`ReuseSwallows`). `SafeStep` says exactly which step does it.
  Nothing is lost as long as nobody deletes the row with the highest key during an analysis
  (`ConservedWhenCareful`).
- Deleting an entry that is already flushed subtracts its size a second time (`DeleteKeepsExactly`,
  `FlushedEntryCountsTwice`).
- A backend switch on disk carries over the devices the registry knows. Old queues end up empty if and
  only if these are all that have something pending (`OldQueuesEmptyExactly`). A failure is documented to
  leave everything where it was: it does, if and only if it comes before the first device is done
  (`FailureUndoneExactly`). A switch during an analysis makes the cycle mark old keys in the new table:
  an analysed pair is analysed again and a new one is marked unanalysed (`EndInNewStoreExactly`,
  `SwitchRepeatsAndSwallows`), so conservation needs that none falls between the two halves of a flush.
- A clear of the DNS log that fails on the database loses the counts still in memory
  (`HitsConserved`, `FailedClearLoses`), and a failed write brings an older status back
  (`StatusAfterFailedWrite`, `OlderStatusReturns`).
- Automatic mode changes are documented to rest on the new mode's traffic. They do when the statistics
  were read after the counter reset of the last change and no write straddled that reset
  (`SwitchNeedsFreshEvidence`), so in every run in which a change and its reset are not interrupted and
  no write is under way (`OrderlyChangesAreJustified`). Five runs show what else happens: a reading
  taken before a change (`StaleReadingActs`), one interrupted by a change (`TornReadingActs`), one between
  a change and its reset (`EarlyReadingActs`), a write of counters read before the reset
  (`StraddlingWriteActs`), and a reset that fails (`FailedResetActs`).
- A process that cannot write the watchdog's state file restarts again within the cooldown
  (`RecordedExactly`, `UnwritableFileRestartsAgain`).
- A set below an empty root object is refused, although nothing stands in its way
  (`SetSucceedsExactly`, `EmptyRootRefuses`).
- Setter and deleter of a JSON path do not always walk the same segments (`SegmentsAgreeExactly`,
  `DollarDiffers`, `EmptySegmentDiffers`).

## Model

| member | source | states |
|---|---|---|
| `ClientHello.ClientHelloMessage` | core/tls_mitm.py:267-299 | the record loop over positions gives the verdict of reading the records one by one from the front, on any bytes; it ends and stays in bounds |
| `ClientHello.ExtractSni` | core/tls_mitm.py:200-264 | the whole extraction is verdict, body and first server_name extension, on any bytes |
| `ClientHello.WalkHello` | core/tls_mitm.py:211-235 | the five length-prefixed vectors before the extensions are skipped or the walk gives up |
| `ClientHello.WalkExtensions` | core/tls_mitm.py:237-264 | the position loop answers as the extension block read from the front |
| `ClientHello.WalkNames` | core/tls_mitm.py:249-261 | the position loop finds the first non-empty host_name, or None when a length overruns the list before it |
| `ClientHello.MessageHasHeader` | core/tls_mitm.py:289-298 | a complete message is a ClientHello of exactly the length its header announces, at most 64 KiB |
| `ClientHello.VerdictIsFinal` | core/tls_mitm.py:267-299 | a verdict that has been reached never changes when bytes are appended |
| `ClientHelloWire.CompleteExactly` | core/tls_mitm.py:267-299 | a buffer yields message m if and only if m is an acceptable ClientHello and the buffer starts with handshake records that carry it, its last byte in the last of them |
| `ClientHelloWire.ScanRecords` | core/tls_mitm.py:275-299 | records that carry a message, cut in any way and followed by anything, are reassembled to it |
| `ClientHelloWire.RecordsOf` | core/tls_mitm.py:275-299 | the converse: records and tail are recovered from any buffer with a complete verdict |
| `ClientHelloVerdicts.UnusableExactly` | core/tls_mitm.py:278-295 | a buffer is given up if and only if it starts with handshake records whose payloads, with the last of them, begin with another type or announce more than 64 KiB, or with records that leave a ClientHello open and are followed by a header of another type, zero length or more than 18432 bytes |
| `ClientHelloVerdicts.NeedMoreExactly` | core/tls_mitm.py:276-287 | more bytes are asked for if and only if the buffer is records that leave a ClientHello open, followed by the beginning of one more |
| `ClientHelloWire.NamesRoundTrip` | core/tls_mitm.py:249-261 | an encoded server_name_list yields its first non-empty host_name |
| `ClientHelloWire.ExtensionsRoundTrip` | core/tls_mitm.py:237-264 | an encoded extension block yields the host of its first server_name extension, whatever precedes it |
| `ClientHelloWire.BodyRoundTrip` | core/tls_mitm.py:211-264 | an encoded ClientHello body, with or without extensions, yields its host |
| `ClientHelloWire.WireRoundTrip` | core/tls_mitm.py:200-299 | serialize, cut into records, append anything: the message and its host come back |
| `ServerNames.NameInExactly` | core/tls_mitm.py:249-261 | a list yields a host if and only if it starts with entries the last of which is its first non-empty host_name |
| `ServerNames.ExtensionNameExactly` | core/tls_mitm.py:237-264 | a block yields a host if and only if its first server_name extension with a list length has it in its list |
| `ServerNames.HelloNameExactly` | core/tls_mitm.py:211-264 | a body yields a host if and only if it is laid out as a ClientHello whose extension block yields it |
| `ServerNames.ServerNameExactly` | core/tls_mitm.py:200-264 | the proxy sees a host in a buffer if and only if the buffer starts with handshake records that carry a ClientHello naming it |
| `HelloReader.StreamReader.Read` | core/tls_mitm.py:518 | a read returns the next bytes of the stream, between one and n of them, and nothing only at its end |
| `HelloReader.ReadCompleteClientHello` | core/tls_mitm.py:510-523 | however reads cut the stream, the bytes collected are an exact prefix, end at a verdict, at 64 KiB or at the end of the stream, and none is dropped |
| `HelloReader.CutsDoNotMatter` | core/tls_mitm.py:510-523 | verdict and server name of any such prefix equal those of the first 64 KiB of the stream |
| `HelloReader.ProperPrefixNeedsMore` | core/tls_mitm.py:275-299 | records of a ClientHello cut short never decide anything |
| `HelloReader.HostSeenExactly` | core/tls_mitm.py:510-523 | the host of a fragmented ClientHello is seen, through any reads, if and only if its records fit into 64 KiB or it names none |
| `HelloReader.OneByteRecordsHideHost` | core/tls_mitm.py:510-523 | counterexample: an 11 KB hello with a host, in one-byte records, is not seen however it arrives |
| `HelloReader.ConnectionServerName` | core/tls_mitm.py:538-556 | first read, collection and extraction together give the server name of the first 64 KiB |
| `ClientHelloWaiting.WaitingHelpsExactly` | core/tls_mitm.py:267-299 | an undecided buffer can still become a ClientHello if and only if its unfinished last record and the bytes gathered can |
| `ClientHelloWaiting.WaitsInVain` | core/tls_mitm.py:270-279 | counterexample to the docstring: a wrong first byte asks for more, and no bytes can help |
| `ClientHelloWaiting.UnusableStays` | core/tls_mitm.py:270-272 | data rejected at once could never have completed |
| `Correlation.LearningPipeline.constructor` | core/pipeline.py:347 | a new process knows the table and no request in memory |
| `Correlation.LearningPipeline.RegisterRequest` | core/pipeline.py:449-463 | the request is newest in memory, where at most 1000 stay, and a pending row in the table |
| `Correlation.LearningPipeline.PopPending` | core/pipeline.py:504-528 | takes out the first request in memory the response asks for, or nothing |
| `Correlation.LearningPipeline.ClaimKeyedRow` | core/pipeline.py:530-583 | claims the pending row of the key, or nothing |
| `Correlation.LearningPipeline.MatchResponse` | core/pipeline.py:585-698 | memory first; then the keyed row, or without a key the first row of the protocol in the reply; what was found is marked |
| `Correlation.LearningPipeline.DiscardRequest` | core/pipeline.py:467-502 | the request is gone from memory and pending rows; true exactly when something changed; an error is counted exactly when it was in memory and is to be counted |
| `Correlation.LearningPipeline.Restart` | core/pipeline.py:347 | a restart loses memory and nothing else |
| `Correlation.LearningPipeline.ClearCache` | core/buffer/sqlalchemy_store.py:252-255 | a flush clears the table and nothing else |
| `Correlation.MatchTakes` | core/pipeline.py:609-695 | a match takes a captured request nobody had, that fits the response, and no copy of it stays pending |
| `PendingMemory.MatchLeaves` | core/pipeline.py:504-528 | a match takes just the request it returns out of memory, the others in their order, or leaves memory as it is; exactly the rows of its key are marked |
| `PendingMemory.DiscardLeaves` | core/pipeline.py:467-502 | so does a discard; exactly the pending rows of its key go |
| `PendingMemory.StaysUntilSpent` | core/pipeline.py:449-695 | in every run without a restart or its own eviction, a request is in memory if and only if it was not paired or discarded |
| `PendingMemory.StepLeaves` | core/pipeline.py:449-695 | one call takes a request out of memory if and only if it pairs, discards or evicts it or is a restart |
| `PendingMemory.LastThousandStay` | core/pipeline.py:347 | after any number of registrations memory is the last 1000 requests, oldest first |
| `PendingMemory.TableHasAll` | core/pipeline.py:449-463 | the table has them all, pending |
| `Correlation.StepKeeps` | core/pipeline.py:405-698 | every call keeps the invariant behind all runs: a key in memory has no correlated row, what is pending was never paired or discarded |
| `Correlation.PairedAtMostOnce` | core/pipeline.py:585-698 | in every run with evictions, restarts and clears, no request is paired twice and none after it was discarded |
| `Correlation.KeyedExactly` | core/pipeline.py:598-602 | a keyed response gets the request of that key if and only if it is pending in memory or table, and never another |
| `Correlation.UnknownKeyGetsNothing` | core/pipeline.py:544-564 | a key nobody captured gets nothing |
| `Correlation.CapturedIsFound` | core/pipeline.py:449-463 | through evictions and restarts a captured request is found by its key until it is paired or discarded |
| `Correlation.OrderKept` | core/pipeline.py:449 | a call keeps memory in capture order, if the clock does not run backwards |
| `Correlation.OrderKeptForGood` | core/pipeline.py:449 | so does every run |
| `Correlation.UnkeyedFits` | core/pipeline.py:520-528 | an unkeyed response gets a captured request of its protocol inside the window |
| `Correlation.UnkeyedFromMemory` | core/pipeline.py:510-515 | memory in capture order serves the oldest request of the protocol inside the window |
| `Correlation.OldestFromMemory` | core/pipeline.py:510-528 | after every run, memory serves an unkeyed response whenever it can, with its oldest request of the protocol inside the window |
| `Correlation.OldestPendingExactly` | core/pipeline.py:598-602 | that request is the oldest of all pending ones if and only if no pending row outside memory is older than every fitting request in memory |
| `Correlation.OldestWithoutLoss` | core/pipeline.py:598-602 | in every run without restart and eviction an unkeyed response gets the oldest pending request whenever one fits |
| `Correlation.RestartHidesOlder` | core/pipeline.py:598-602 | counterexample: a request, a restart, a younger request, and the younger one is taken |
| `UnkeyedFallback.FallbackIsNewest` | core/pipeline.py:638-695 | the table gives the newest request on offer, and it is the documented oldest if and only if all on offer were captured at the same moment |
| `UnkeyedFallback.FallbackTakesTheYounger` | core/pipeline.py:638-695 | counterexample: of two pending rows the younger is taken |
| `UnkeyedFallback.FallbackMayFindExactly` | core/pipeline.py:642-655 | whatever timestamps coincide, some order of the database finds a request if and only if one of the protocol has fewer than ten newer pending rows |
| `UnkeyedFallback.FallbackAlwaysFindsExactly` | core/pipeline.py:642-655 | every order does if and only if one of the protocol has fewer than ten pending rows of other protocols at least as new |
| `UnkeyedFallback.FallbackFindsExactly` | core/pipeline.py:642-655 | the case without equal timestamps: found if and only if one of the protocol has fewer than ten newer pending rows |
| `UnkeyedFallback.CrowdedOut` | core/pipeline.py:642-655 | counterexample: eleven registrations, a restart, and the response gets nothing although its request is pending |
| `BufferStore.SqlAlchemyBufferStore.constructor` | core/buffer/sqlalchemy_store.py:64-79 | rows persist, the sequence cache starts empty |
| `BufferStore.SqlAlchemyBufferStore.AddPair` | core/buffer/sqlalchemy_store.py:89-109 | new state of the device on success, failure and cancellation; other devices unchanged |
| `BufferStore.SqlAlchemyBufferStore.GetBufferPairs` | core/buffer/sqlalchemy_store.py:134-149 | the unflushed rows by sequence |
| `BufferStore.SqlAlchemyBufferStore.PendingDeviceIds` | core/buffer/sqlalchemy_store.py:111-132 | exactly the devices with something pending: all of them in RAM mode, those among the candidates on disk, none twice |
| `BufferStore.SqlAlchemyBufferStore.DistinctDevices` | core/buffer/sqlalchemy_store.py:119-126 | the query of RAM mode, in any order |
| `BufferStore.SqlAlchemyBufferStore.Flush` | core/buffer/sqlalchemy_store.py:151-176 | every unflushed row is marked, the counter is zero, the count is returned |
| `BufferStore.SqlAlchemyBufferStore.FlushSelected` | core/buffer/sqlalchemy_store.py:178-219 | the chosen unflushed rows are marked and their size subtracted |
| `BufferStore.SqlAlchemyBufferStore.DeleteEntry` | core/buffer/sqlalchemy_store.py:221-242 | the row is removed and its size subtracted; true exactly when there was one |
| `BufferStore.NextSequenceOf` | core/buffer/sqlalchemy_store.py:262-286 | cached plus one, or one above the table's maximum, or zero |
| `BufferAccounts.ReadInArrivalOrder` | core/buffer/sqlalchemy_store.py:134-149 | pairs are read back in the order they arrived, as long as their sequences increase |
| `BufferAccounts.AddKeeps` | core/buffer/sqlalchemy_store.py:89-109 | an add keeps the counter right whatever its sequence, and leaves no trace when it fails or is cancelled |
| `BufferAccounts.AddedExactly` | core/buffer/sqlalchemy_store.py:89-109 | the row stored, and the next number: one more after a commit or a cancellation, asked of the table after a failure |
| `BufferAccounts.NextSequenceExactly` | core/buffer/sqlalchemy_store.py:262-286 | the number is one above the cached one, one above the highest in the table, or zero |
| `BufferAccounts.AddReadLastExactly` | core/buffer/sqlalchemy_store.py:134-149 | a stored pair is read last if and only if nothing pending has a higher sequence |
| `BufferAccounts.AddKeepsOrderExactly` | core/buffer/sqlalchemy_store.py:262-286 | an add keeps the sequences increasing if and only if its cache is empty or not behind the table; then the cache is not behind afterwards |
| `BufferAccounts.AddIsDistinctExactly` | core/buffer/sqlalchemy_store.py:262-286 | it keeps them distinct if and only if its cache is empty or the next number is free |
| `BufferAccounts.OthersKeepOrder` | core/buffer/sqlalchemy_store.py:151-242 | no other operation disorders the table or raises its highest sequence |
| `BufferAccounts.FlushSelectedKeeps` | core/buffer/sqlalchemy_store.py:178-219 | exactly the chosen pairs leave queue and counter, whatever the sequences, without the clamp |
| `BufferAccounts.FlushKeeps` | core/buffer/sqlalchemy_store.py:151-176 | a full flush leaves nothing pending and the accounts right |
| `BufferAccounts.FlushStampsExactly` | core/buffer/sqlalchemy_store.py:191-210 | exactly the unflushed rows with the ids given are marked, each with the time of the flush; no other row changes |
| `BufferAccounts.FlushAllStampsExactly` | core/buffer/sqlalchemy_store.py:151-176 | a full flush does so with every unflushed row |
| `BufferAccounts.DeleteKeepsExactly` | core/buffer/sqlalchemy_store.py:221-242 | a deletion takes exactly its entry; the counter stays right if and only if the entry was pending, empty, or nothing was pending |
| `BufferAccounts.DeletedBytesExactly` | core/buffer/sqlalchemy_store.py:235-238 | a deletion subtracts the size of its entry, and stops at zero |
| `BufferAccounts.ApplyKeeps` | core/buffer/sqlalchemy_store.py:89-242 | every operation keeps counter and keys, whatever the sequences, and never subtracts more than the counter |
| `SharedBuffer.AccountsStayRight` | core/buffer/sqlalchemy_store.py:89-242 | from an empty table, with any number of stores, failures and restarts: counter equals pending sizes and clamps never fire |
| `SharedBuffer.OrderStaysRight` | core/buffer/sqlalchemy_store.py:262-286 | in every run in which no store adds on an overtaken cache: sequences increase, every store reads in arrival order, the next sequence is above the table |
| `SharedBuffer.OutOfTurnExactly` | core/buffer/sqlalchemy_store.py:274-276 | an add out of turn keeps the order if and only if its cache is not behind the table all the same |
| `SharedBuffer.SecondStoreDisorders` | core/pattern_db/buffer_manager.py:49-62 | counterexample: capture, two imports through a second store, capture: a number is given twice and the queue is read out of order |
| `BufferAccounts.FlushedEntryCountsTwice` | core/buffer/sqlalchemy_store.py:235-238 | counterexample: flush a pair, store another, delete the first, and the counter is below what is pending |
| `FlushCycle.RunFlush` | core/pipeline.py:822-910 | with any adds and deletes during the analysis: what is marked, reported and left, on success and on each failure |
| `Snapshots.SnapshotExactly` | core/pipeline.py:830-842 | a cycle takes the unflushed rows, or the chosen ones among them, each as often as it is in the table and no other, in the order of their sequences |
| `Snapshots.MarkedIdsExactly` | core/pipeline.py:893-903 | it marks the ids it was asked for, or those of all unflushed rows of its snapshot |
| `FlushCycle.StepKeeps` | core/pipeline.py:822-910 | every step keeps the account of where each captured pair is |
| `FlushCycle.NothingLostOrRepeated` | core/pipeline.py:819-903 | in every run no pair is in two successful analyses, and every pair captured is pending, deleted, analysed or swallowed by a reused key |
| `FlushCycle.EndMarksExactly` | core/pipeline.py:898-903 | a successful cycle marks what is left of its snapshot, and only that if and only if no other pending row has an id it marks |
| `FlushCycle.FailedCycleLosesNothing` | core/pipeline.py:885-891 | after any traffic and a failed analysis exactly the pairs wait that waited before or came in meanwhile and were not deleted, and the next snapshot has them all |
| `KeyReuse.SafeStep` | core/pipeline.py:898-903 | a step keeps a cycle safe if and only if it does not store a pair under an id the cycle will mark; a safe step swallows nothing |
| `KeyReuse.ConservedWithoutReuse` | core/pipeline.py:898-903 | then a pair leaves the pending set only by deletion or after a successful analysis |
| `KeyReuse.DeleteKeepsNextKey` | core/models/llm.py:34-47 | deleting a row below the highest does not give its key back |
| `KeyReuse.ConservedWhenCareful` | core/pipeline.py:893-903 | in every run with keys by the rule of SQLite and no deletion of the highest row during an analysis, a captured pair is waiting, deleted or analysed, and what waits was neither |
| `KeyReuse.ReuseSwallows` | core/pipeline.py:898-903 | counterexample: the last pair is deleted during the analysis, the next takes its key and is marked without being analysed |
| `BackendSwitch.CopyPairs` | core/buffer/__init__.py:165-167 | the pairs copied before an exception stand behind the new queue in order; other devices unchanged |
| `BackendSwitch.MoveDevice` | core/buffer/__init__.py:161-171 | a device is moved, or its old queue is untouched; it is moved exactly when all its copies and the flush succeed |
| `BackendSwitch.SwitchRound` | core/buffer/__init__.py:161-171 | a round keeps the devices done moved and the others as before |
| `BackendSwitch.CarryOver` | core/buffer/__init__.py:161-171 | the device loop: as many of the first devices as the store operations last for are moved, each new queue its own followed by the old one in order with the same sizes and each old queue empty; the one it stops at still has its queue; the others are untouched; pairs and devices are counted |
| `BackendSwitch.SwitchBackend` | core/buffer/__init__.py:134-173 | the same for the devices of the old store that have something pending, or those registered on disk |
| `BackendSwitch.SucceedsExactly` | core/buffer/__init__.py:161-171 | it succeeds if and only if every store operation it takes does |
| `BackendSwitch.OldQueuesEmptyExactly` | core/buffer/__init__.py:161-171 | a switch that succeeds empties every old queue if and only if every device with something pending was a candidate |
| `BackendSwitch.SwitchLosesNothing` | core/buffer/__init__.py:147-150 | however a switch ends, no pair that waited in either store is lost |
| `BackendSwitch.FailureUndoneExactly` | core/buffer/__init__.py:147-150 | a failed switch leaves the old queues as they were if and only if it fails before the first device is done |
| `SwitchDuringFlush.EndInNewStoreExactly` | core/pipeline.py:898-903 | what a cycle leaves waiting in a store it was rebound to: exactly the rows whose keys there are not among the old keys |
| `SwitchDuringFlush.SwitchRepeatsAndSwallows` | core/pipeline.py:1610-1624 | counterexample: after a switch during an analysis the analysed pair waits again and a new pair is marked unanalysed |
| `BackendSwitch.CopyStep` | core/buffer/__init__.py:165-167 | a copy goes behind the new queue and keeps its accounts |
| `BackendSwitch.NoneLost` | core/buffer/__init__.py:147-150 | moved or kept, a pair that waited still waits in one of the stores |
| `Retention.ContextBuffer.Prune` | core/buffer/context_buffer.py:175-246 | the two deletions, and their number |
| `Retention.PruneAgeExactly` | core/buffer/context_buffer.py:200-210 | with room for all, a row is dropped if and only if it was flushed before the cutoff |
| `Retention.FlushedThenPruned` | core/buffer/context_buffer.py:200-210 | a pair flushed at `now` is dropped by the age limit of a later prune if and only if `now` is before the cutoff |
| `Retention.PruneKeepsNewest` | core/buffer/context_buffer.py:200-246 | unflushed rows untouched, nothing expired kept, every flushed row kept is newer than every one dropped for room, the cap holds |
| `Retention.PruneFillsCapExactly` | core/buffer/context_buffer.py:218-246 | the cap is used up if and only if the last row kept and the first one dropped have different sequences |
| `Retention.PruneFillsCap` | core/buffer/context_buffer.py:200-246 | with distinct sequences exactly min(cap, n) of the n flushed rows that survive the age limit stay |
| `Retention.HealthyPrune` | core/buffer/context_buffer.py:200-246 | pruning keeps counter and order right, and fills the cap in a table in order |
| `SessionGate.Session.Acquire` | core/buffer/memory.py:64-71 | admitted exactly when the task owns the gate, or the lock is free and nobody queues; else the task queues |
| `SessionGate.Session.Resume` | core/buffer/memory.py:69-71 | the first waiter of a free lock takes it |
| `SessionGate.Session.Release` | core/buffer/memory.py:73-77 | the last release frees owner and lock |
| `SessionGate.OneTaskInside` | core/buffer/memory.py:47-77 | over every interleaving one task is inside, the depth is its nesting, the lock is held exactly while somebody is inside |
| `SessionGate.NestedNeverBlocks` | core/buffer/memory.py:54-56 | a task that is inside is admitted again at once |
| `SessionGate.EnterExactly` | core/buffer/memory.py:64-71 | in every run a task gets in at once if and only if it is inside, or nobody is and nobody waits; else it waits behind all others |
| `SessionGate.LastLeaveAdmitsFirst` | core/buffer/memory.py:138-151 | after the last leave the first waiter gets in and nobody else can; with nobody waiting, anybody |
| `SessionGate.QueueIsFair` | core/buffer/memory.py:64-77 | the queue is served in order: a step appends a task, takes the first, or takes out one that gives up and leaves the others in place |
| `DnsDiscovery.DnsQueryLog.RecordDnsQueries` | core/database.py:784-806 | the upsert of a batch, key by key |
| `DnsDiscovery.DnsQueryLog.ClearDnsQueries` | core/database.py:829-836 | the log is empty and its size returned |
| `DnsDiscovery.CollapseDnsObservations` | core/database.py:122-140 | the loop merges observations of one key |
| `DnsDiscovery.DNSDiscoveryRecorder.Observe` | core/dns_discovery.py:119-146 | a query is counted, or counted as dropped when the table is full |
| `DnsDiscovery.DNSDiscoveryRecorder.MergeBack` | core/dns_discovery.py:194-208 | the loop leaves for each key the join of both tables, in any order of keys |
| `DnsDiscovery.DNSDiscoveryRecorder.Flush` | core/dns_discovery.py:150-192 | tables and counters after success, failure, cancellation and without a sink, with queries arriving meanwhile |
| `DnsDiscovery.DNSDiscoveryRecorder.Clear` | core/dns_discovery.py:229-244 | memory is emptied, the log too unless that fails |
| `DnsDiscovery.ListedCollapses` | core/dns_discovery.py:173 | a batch of the recorder reaches the log unchanged by collapsing, in whatever order it is listed |
| `DnsDiscovery.CollapseKeepsHits` | core/database.py:122-140 | collapsing keeps the hits of every key, an observation without hits counting as one |
| `DnsDiscovery.CollapseKeepsSightings` | core/database.py:122-140 | collapsing keeps the earliest and latest sighting of a key and the status of its last observation |
| `DnsDiscovery.UpsertedExactly` | core/database.py:789-806 | a row gains the batch's hits, keeps its first sighting and takes the batch's last sighting and status |
| `DnsDiscovery.ObservedExactly` | core/dns_discovery.py:119-146 | a query is counted, with its time and status, if and only if its key is known or there is room for one more; nothing else changes |
| `DnsLedger.NoteIsCounted` | core/dns_discovery.py:119-146 | the live table stays the tally of the notes accepted |
| `DnsLedger.BatchLands` | core/database.py:794-806 | after a write the log is the tally of its notes and the batch's: hits, first and last sighting |
| `DnsLedger.BatchReturns` | core/dns_discovery.py:194-208 | after a failed write memory is the tally of the batch's notes and those since |
| `DnsLedger.HitsConserved` | core/dns_discovery.py:150-244 | in every run and for every key, hits in memory, in flight and in the log are the notes accepted since the last successful clear, if and only if no failed clear wiped any of that key |
| `DnsLedger.AcceptedExactly` | core/dns_discovery.py:119-146 | until something is cleared, the queries accepted are exactly those that came when their key was known or the table had room |
| `DnsLedger.QueriesAreCounted` | core/dns_discovery.py:119-208 | until something is cleared, the hits of a key anywhere are exactly the number of its queries that came so |
| `DnsLedger.BurstIsCounted` | core/dns_discovery.py:119-146 | a burst becomes the tally of the queries taken, and the drop counter counts the rest |
| `DnsLedger.ReturnedExactly` | core/dns_discovery.py:194-208 | after a failed write every key is there, with the unwritten status if it was in the batch |
| `DnsLedger.SightingsConserved` | core/dns_discovery.py:150-208 | first and last sighting survive every move |
| `DnsLedger.ClearedStaysCleared` | core/dns_discovery.py:235-244 | no batch taken before a clear lands after it |
| `DnsLedger.FailedClearLoses` | core/dns_discovery.py:235-244 | counterexample: one query, then a clear that fails on the log |
| `DnsLedger.StatusAfterFailedWrite` | core/dns_discovery.py:194-208 | after a failed write the latest status shows if and only if the key was not noted meanwhile, or alike |
| `DnsLedger.OlderStatusReturns` | core/dns_discovery.py:194-208 | counterexample: a query counted while the write of an older one fails |
| `MatchTracker.MatchRateTracker.FlushCache` | core/match_tracker.py:36-79 | the batch moves into the row: totals, rate, window; nothing happens when nothing is pending |
| `MatchTracker.MatchRateTracker.RecordResult` | core/match_tracker.py:81-106 | a result is pending, or moved with its batch at the fiftieth |
| `MatchTracker.RecordKeepsWindow` | core/match_tracker.py:101-104 | truncating the pending list never touches the last 1000 results |
| `MatchTracker.CountsAreExact` | core/match_tracker.py:36-106 | for every interleaving, stored plus pending counts are the exact counts, the stored rate is the nearest hundredth of a percent of the stored hits, and stored window followed by pending results ends in the last 1000 recorded |
| `MatchTracker.RateIsNearest` | core/match_tracker.py:65-68 | the rate is the nearest hundredth of a percent, the even one of two, and at most 100 |
| `MatchTracker.MovedRate` | core/match_tracker.py:65-69 | a batch leaves the rate of the counts it leaves, and zero without hits and misses |
| `AutoSwitch.RecentMatchRate` | core/resilience.py:59-81 | the loop counts hits and samples of the window, errors apart |
| `AutoSwitch.AutoSwitchScheduler.UpdateDeviceMode` | core/database.py:957-1001 | a real change zeroes the counters unless the reset fails; other devices unchanged |
| `AutoSwitch.AutoSwitchScheduler.ResetMatchCounters` | core/database.py:983-1001 | the counters are zeroed, or left when that fails; nothing else changes |
| `AutoSwitch.AutoSwitchScheduler.CheckCloudIndependence` | core/resilience.py:143-166 | the reading: window rate and samples, or the lifetime ones when the window is empty |
| `AutoSwitch.AutoSwitchScheduler.AutoSwitchToProduction` | core/resilience.py:247-288 | promoted exactly when opted in and patterns, rate and samples suffice |
| `AutoSwitch.AutoSwitchScheduler.ShouldRollbackToLearning` | core/resilience.py:290-317 | rolled back exactly when in production, opted in, below 90 percent, on 50 samples |
| `AutoSwitch.AutoSwitchScheduler.CheckAllDevices` | core/resilience.py:568-589 | a round, on a listing taken at its start, treats every device by its own statistics and no other |
| `ModeChanges.SwitchNeedsFreshEvidence` | core/resilience.py:120-317 | in every run an automatic change follows at least 50 results written since the last mode change and obeys its thresholds, if its statistics were read after that change and its reset, with no write straddling the reset |
| `ModeChanges.OrderlyChangesAreJustified` | core/database.py:964-981 | so it does in every run in which resets follow their changes at once and succeed and no write is under way then, if the reading began after the change |
| `ModeChanges.UninterruptedDecision` | core/resilience.py:258-280 | a decision right after its reading does, when the counters are those of the present mode |
| `ModeChanges.StaleReadingActs` | core/resilience.py:258-280 | counterexample: a mode change between reading and decision |
| `ModeChanges.TornReadingActs` | core/resilience.py:120-147 | counterexample: a mode change between reading the statistics and reading the device row |
| `ModeChanges.EarlyReadingActs` | core/database.py:971-980 | counterexample: a reading between the commit of the mode and the reset |
| `ModeChanges.StraddlingWriteActs` | core/match_tracker.py:42-73 | counterexample: a write that read the counters before the reset and commits after it |
| `ModeChanges.FailedResetActs` | core/database.py:983-1001 | counterexample: a reset that fails |
| `ModeChanges.FiftyMisses` | core/resilience.py:59-81 | fifty misses bring a learning device into the state these runs start from |
| `AutoSwitch.FailedResetRollsBack` | core/database.py:983-1001 | a promotion whose counter reset fails is rolled back on the old evidence; one whose reset succeeds is not |
| `AutoSwitch.ScheduledChange` | core/resilience.py:568-589 | a round changes a mode only on 50 samples of the device and within its thresholds, and the next round leaves it alone |
| `AutoSwitch.WindowCounts` | core/resilience.py:59-81 | the samples of a window are its hits and misses, errors apart |
| `AutoSwitch.ModeSetExactly` | core/database.py:957-1001 | setting another mode zeroes the counters unless the reset fails; setting the same one changes nothing |
| `AutoSwitch.RoundExactly` | core/resilience.py:568-589 | a round promotes a device if and only if it is learning, opted in, has the patterns and the rate asked for and 50 samples, and rolls it back if and only if it is in production, opted in, below 90 percent on 50 samples, by the counts of its window; nothing else changes but the counters, zeroed by a reset that succeeds |
| `CircuitBreaker.ProviderCircuitBreaker.constructor` | core/fallback_policy.py:47-59 | threshold and cooldown are clamped, all circuits closed |
| `CircuitBreaker.ProviderCircuitBreaker.RecordSuccess` | core/fallback_policy.py:63-68 | the circuit is closed, others unchanged |
| `CircuitBreaker.ProviderCircuitBreaker.RecordFailure` | core/fallback_policy.py:70-83 | one failure more; at the threshold it opens, or re-opens, now |
| `CircuitBreaker.ProviderCircuitBreaker.IsOpen` | core/fallback_policy.py:87-100 | the answer, and the move to half-open that asking causes |
| `CircuitBreaker.ProviderCircuitBreaker.Allow` | core/fallback_policy.py:106-116 | the answer, and the probe it hands out |
| `CircuitBreaker.ProviderCircuitBreaker.HealthyNames` | core/fallback_policy.py:126-128 | the names that get through when asked in order, and the probes claimed |
| `CircuitBreaker.HealthyExactly` | core/fallback_policy.py:126-128 | a name is healthy if and only if its first request is granted, however often it is listed |
| `CircuitBreaker.StreakOpens` | core/fallback_policy.py:63-83 | in every run the count is the failures since the last success, and the circuit has opened if and only if they reach the threshold |
| `CircuitBreaker.ClosedAllows` | core/fallback_policy.py:87-116 | below the threshold nobody is turned away |
| `CircuitBreaker.OneProbePerOpening` | core/fallback_policy.py:70-116 | after any history, between an opening failure and the next record exactly the first request at or after the end of the cooldown is granted |
| `CircuitBreaker.SuccessCloses` | core/fallback_policy.py:63-68 | a success closes the circuit whatever happened before |
| `Watchdog.ConnectionWatchdog.constructor` | core/connection_watchdog.py:82-99 | a new process starts from the stamp on file |
| `Watchdog.ConnectionWatchdog.RunOnce` | core/connection_watchdog.py:128-174 | one round: failures, cooldown, fresh-process check, stamp and end of the loop |
| `Watchdog.RestartsAreSpaced` | core/connection_watchdog.py:93-114 | across all process generations any two restarts are at least the cooldown apart |
| `Watchdog.RestartNeedsStreak` | core/connection_watchdog.py:128-174 | a restart follows at least max_failures failed probes in a row of the same process, is its only one, and never happens when a fresh process fails too |
| `Watchdog.RestartsExactly` | core/connection_watchdog.py:128-174 | in every run with a file that keeps its stamps and a fresh process that never failed, a process restarts if and only if it has not yet, its probes failed max_failures times in a row, and the last restart is the cooldown ago |
| `Watchdog.FutureStampIsIgnored` | core/connection_watchdog.py:112-114 | a stamp later than the clock does not hold a restart up |
| `Watchdog.UplinkDownStartsOver` | core/connection_watchdog.py:147-158 | when a fresh process fails too, nothing happens for max_failures rounds more |
| `Watchdog.RecordedExactly` | core/connection_watchdog.py:101-114 | within the cooldown the next process restarts again if and only if the stamp could not be written |
| `Watchdog.UnwritableFileRestartsAgain` | core/connection_watchdog.py:101-110 | counterexample: a restart that cannot be recorded, a new process, failed probes, and a second restart at the same moment |
| `JsonPath.GetJsonPath` | core/modification.py:192-204 | the loop reads what is at the path, None when there is nothing |
| `JsonPath.SetJsonPath` | core/modification.py:212-252 | the loop with its early exits leaves the tree, and answers, as the recursive update |
| `JsonPath.DeleteJsonPath` | core/modification.py:259-279 | the loop leaves the tree, and answers, as the recursive removal |
| `JsonPath.SetThenGet` | core/modification.py:190-252 | a set that returns True is read back and overwrites an earlier one without trace; one that returns False wrote nothing |
| `JsonPath.SetOfGet` | core/modification.py:190-252 | writing back what is there succeeds and changes nothing |
| `JsonPath.SetSucceedsExactly` | core/modification.py:210-252 | a set succeeds if and only if the root is not empty and nothing present on the path is a scalar, a bad index or a null in an array |
| `JsonPath.EmptyRootRefuses` | core/modification.py:212-213 | counterexample: an empty root object refuses a set that nothing stands in the way of |
| `JsonPath.SetFrame` | core/modification.py:219-252 | at every path that parts from the one set there is what was there, and nothing that was not |
| `JsonPath.SetKeepsLists` | core/modification.py:219-252 | a set makes no list longer or shorter |
| `JsonPath.LookedAt` | core/modification.py:190-204 | the getter reads what is there, and null where there is nothing |
| `JsonPath.DeleteExactly` | core/modification.py:259-279 | a deletion succeeds if and only if the parent holds the last segment; it removes just that entry, or changes nothing |
| `JsonPath.DeletedEntryExactly` | core/modification.py:271-278 | the dictionary loses just the key, the list just the element, and those behind it move up by one |
| `JsonPath.DeleteThenGet` | core/modification.py:271-278 | a deleted key reads as None; behind a deleted element the others move up |
| `JsonPath.DeleteFrame` | core/modification.py:259-279 | at paths that part from the deleted key, or from the array deleted from, there is what was there |
| `JsonPathText.SegmentsAgreeExactly` | core/pattern_utils.py:14-25 | without brackets and slashes, setter and deleter walk the same segments if and only if none is empty and a leading dollar is followed by a dot |
| `JsonPathText.SplitExactly` | core/modification.py:190-219 | the segments are the only parts without a separator that join to the path |
| `JsonPathText.BracketsAreDots` | core/pattern_utils.py:14-25 | to the deleter an index in brackets is a segment behind a dot |
| `JsonPathText.DollarDiffers` | core/pattern_utils.py:14-25 | counterexample: `$a` is the key `$a` to the setter and `a` to the deleter |
| `JsonPathText.EmptySegmentDiffers` | core/modification.py:219-261 | counterexample: `a..b` has an empty segment for the setter only |
| `SecretMask.RoundTrip` | core/config.py:57-102 | restoring a masked config against itself gives it back, whatever it holds |
| `SecretMask.MaskTwice` | core/config.py:57-80 | masking is idempotent |
| `SecretMask.MaskAt` | core/config.py:57-80 | at every path the mask shows what is there, and the mask string at a secret |
| `SecretMask.MaskExactly` | core/config.py:57-80 | a tree is the mask of another if and only if it looks so at every path |
| `SecretMask.MaskedExactly` | core/config.py:35-80 | a string is masked if and only if its key, in small letters and digits, ends in a secret word or is one of two short ones, and it is neither empty nor a reference to the environment |
| `SecretMask.MaskHidesSecrets` | core/config.py:57-80 | configs that differ only in secrets have the same mask |
| `SecretMask.EditsSurvive` | core/config.py:83-102 | after an edit, every string in dictionaries and lists that is still the mask has its stored value and every other one is the one sent |
| `SecretMask.RestoreKeepsShape` | core/config.py:83-102 | every dictionary has the keys sent, every list the length sent, and every other value is the one sent |

## Left out

- Sockets, TLS handshakes, HTTP parsing, routes, certificates, the launcher, metrics and logging: library behaviour and I/O.
- SQLAlchemy and SQLite: a table is a sequence or map of rows, a transaction happens or does not. Replies of the database are parameters, and so are ids, except that a backend switch numbers its copies by the rule of SQLite.
- The language model, prompts, JSON repair and the pattern engine: an analysis is an arbitrary success or failure.
- ClientHello.ExtractSni: the name is returned as bytes, before it is decoded from UTF-8.
- HelloReader.ConnectionServerName: the time-outs of the two reads, which close the connection.
- SharedBuffer.AccountsStayRight: calls of different stores on one device do not overlap; the lock of the source is per store.
- Correlation: one device with its own table, each call atomic, database calls succeeding, keys fresh; a deque entry and its row share timestamp and protocol. Two overlapping responses inside `match_response` are not modelled. Method, path, headers and body are one value.
- `FlushCoordinator`, the scheduling and retry delay of background flushes, and `FallbackChain.run`: a lock, a timer and a loop over handlers that would add easy members only.
- BufferStore.SqlAlchemyBufferStore.Flush: the time and number of flushes, and the durable statistics kept beside the in-memory backend.
- BufferStore.SqlAlchemyBufferStore.FlushSelected: likewise.
- BufferStore.SqlAlchemyBufferStore.DeleteEntry: the durable statistics.
- FlushCycle.RunFlush: a cycle with chosen `pair_ids` marks the ids as given; the analysis, the saving and the export of patterns are one verdict; clearing the session cache is `Correlation.LearningPipeline.ClearCache`.
- BackendSwitch.SwitchBackend: pairs added during the switch, a second attempt after a failed one (it copies again what was copied), and the choice being persisted. A switch between two flushes is not among the events of `FlushCycle`; one during a flush is in `SwitchDuringFlush`.
- DnsDiscovery.DNSDiscoveryRecorder.Observe: normalization of names and the `enabled` switch.
- DnsDiscovery.DNSDiscoveryRecorder.Flush: pruning of the log after a write; a failed batch may take the table past its limit, as in the source.
- MatchTracker.CountsAreExact: commits succeed and no counter is reset between; the times of the samples are only carried.
- MatchTracker.RateIsNearest: rounding of exact fractions, not of floating-point numbers.
- AutoSwitch.AutoSwitchScheduler.CheckCloudIndependence: the method reads statistics and row at one moment; readings that are interrupted are events of the runs. Templates, confidence and the independence label are not modelled.
- AutoSwitch.AutoSwitchScheduler.CheckAllDevices: nothing else changes a device during the round; `CheckDevice` says what a row listed earlier does to a device that changed.
- AutoSwitch.AutoSwitchScheduler.UpdateDeviceMode: nothing happens between its two transactions; what may is in `ModeChanges`.
- ModeChanges.SwitchNeedsFreshEvidence: resets leave results pending in the tracker, so results recorded before a mode change may be written after it and count as written then. A reset is one step.
- CircuitBreaker: `state`, `snapshot` and liveness. Time is a real number.
- Watchdog: the probes, a missing or corrupt state file (an empty one is modelled), and stopping the task.
- JsonPath: dictionaries and lists are values, and the walk keeps the containers it passed instead of references into them, so two places sharing one container are not captured; numbers are integers; digits are ASCII; bracketed paths, which go through dpath, are left out. The getter's cached segments are the same segments.
- JsonPath.GetJsonPath: the path `$` and the empty path, which name no segment.
- SecretMask: lower-casing of ASCII letters only, string keys, and the files of the configuration manager.
- Order of dictionaries: maps have none.
- Protocol adapters, traffic selection, name classification and the coercion of statuses and confidences: decision tables.
