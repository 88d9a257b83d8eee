# Runnel: consumer progress, deliveries, and the clients' protocol code

A Dafny model of the parts of Runnel where correctness is hardest to see, and proofs about them.

**Consumer progress.** A consumer's durable state is a committed offset, the offsets acknowledged out of
order, delivery attempt counters, policies pinned per delivery, and retry schedules. It is stored as an
append-only journal of events over a checkpoint. `ConsumerProgress` is the state machine: an event is a list of
touches, and what a touch does to one offset is defined a second time, on a small `Slot` that knows nothing of
offsets, sets or maps. `ProgressTheorems` proves the two definitions equal for every event sequence and then
reasons slot by slot. The central claim of the source, that replaying a journal over its own result is harmless,
is `CrashSafeCompaction`.

**Files.** `EventLog` models the checkpoint and the journal bytes for any state machine with idempotent replay;
`ConsumerJournal` shows the consumer's machine is one. Rename and `set_len` are atomic, an append may be torn at
any byte, and every call may fail; a process that stops at a call leaves the same files as that call failing.
The only assumptions of the theorems are about the event serializer: events round-trip, an encoding holds no
newline (section 7 of RFC 8259) and no strict prefix of an encoded object is a JSON text (section 4 of RFC 8259).
`EventEncoding` is a sample serializer that meets them. `LoadSafety` states, over the bytes and for any files
whatever, what a load accepts and leaves, and what a failed persist reports.

**Deliveries.** `DeliveryIndex` is the map of in-flight deliveries and its mirrors: deadline buckets,
per-consumer offsets and keys, and per-member offsets. `DeliveryQueries` and `DeliveryExpiry` relate every fast
query to a scan of the plain map. `BrokerMemory`, `BrokerActions`, `BrokerEffects`, `BrokerGuards` and `BrokerRun`
put this together with the files: a run is any interleaving of requests, actions that pass the broker's checks,
failed writes, failed loads, evictions and process stops. `CacheRefinesFiles` holds at every point of every run,
and `ProgressIsNeverLost` between any two of them. `BrokerLimits` bounds attempts and deliveries over runs, and
`JournalOverflow` is a run that breaks the journal bound.

**Clients.** `Varint`, `ProtoFields`, `WorkflowRequests` and `RequestRoundTrip` model the Python benchmark
client's Protocol Buffers code; `WireGrammar` gives the format as a grammar and `RequestAcceptance` says which requests
can be encoded. `ClientConnection`, `PublishReplies` and `TypedReplies` model the Rust client's connection and outcome
classification. `HotOrdering` and `HotOrderingRecorder` model the benchmark's delivery recorder, and `HotMeasurements`
says which runs it accepts and what it has measured after them, in terms of the events alone.

Operations that the source performs by updating fields are methods of classes (`ConsumerState`, `Files`,
`DeliveryState`, `Client`, `HotOrderingObservation`), each proved equal to a function on values; the theorems
are about those functions. Methods that only read state their meaning directly.

## Findings

- `validate` alone is not preserved by an acknowledgement: the drain loop leaves retry schedules behind
  (`ValidateAloneIsNotInductive`). `ValidateSurvivesAckExactlyWhen` gives the exact condition before the call, and
  `ReachableStatesPassValidate` the stronger invariant under which it never matters.
- The delivery index is exact after a removal if and only if no other delivery of the consumer holds the same
  record key (`RemoveKeepsExactExactlyWhen`, `SharedKeyBreaksTheIndex`). Insertion keeps keys exclusive if and
  only if the key is not reserved (`InsertKeepsKeysExclusive`).
- The journal bound can be broken. All expired deliveries of a consumer are scheduled by one event, and an event
  whose line is longer than the bound is appended all the same when a journal exists; every later load then fails.
  `PersistThenLoad` and `CommitOverflowsExactlyWhen` give the exact condition, `OverflowIsReachable` a run,
  `PersistRepairs` how a broker that still knows the state recovers, and `OverflownStaysRefused` what happens once
  it does not. Without a journal the write fails instead (`OversizedEventIsLostExactlyWhen`).
- A benchmark hot key that equals one of the generated cold keys merges the two counts (`ClashingPlan`);
  `ScheduleMeetsPlan` gives the exact condition, and `DefaultHotKeyIsNotCold` shows the key in use is safe.

## Model

| member | source | states |
|---|---|---|
| `ConsumerProgress.NormalFormUnique` | crates/runnel-core/src/consumer_state.rs:94-111 | two normal states that count the same offsets as acknowledged have the same committed offset and acknowledged set |
| `ConsumerProgress.DrainSettles` | crates/runnel-core/src/consumer_state.rs:103-107 | the drain loop reaches the normal form and acknowledges nothing new |
| `ConsumerProgress.DrainForgets` | crates/runnel-core/src/consumer_state.rs:103-107 | from any state, the drain drops exactly the attempts and policies of the offsets it passes; retry schedules are left alone |
| `ConsumerProgress.DrainPassesExactly` | crates/runnel-core/src/consumer_state.rs:103-107 | from any state, the drain passes an offset if and only if every offset from the committed one up to it is in the acknowledged set |
| `ConsumerProgress.AckKeepsSlots` | crates/runnel-core/src/consumer_state.rs:94-111 | an acknowledgement settles its own offset, leaves every other offset's attempt, policy and schedule unchanged, keeps the invariant and never lowers the committed offset |
| `ConsumerProgress.ApplyKeepsSlots` | crates/runnel-core/src/consumer_state.rs:113-188 | every event's effect on every offset is the independent per-offset definition, and the invariant is kept |
| `ConsumerProgress.SlotsDetermineState` | crates/runnel-core/src/consumer_state.rs:113-188 | two well-formed states that agree offset by offset are equal |
| `ProgressTheorems.ReplayIsIdempotent` | crates/runnel-core/src/consumer_state.rs:396-398 | replaying the same touches over their own result changes nothing |
| `ProgressTheorems.CrashSafeCompaction` | crates/runnel-core/src/consumer_state.rs:395-408 | with the new checkpoint under the old journal, replay succeeds, recovers exactly the checkpointed state, and events appended later are recovered as if the compaction had not happened |
| `ProgressTheorems.ReplayRunsTouches` | crates/runnel-core/src/consumer_state.rs:113-188 | a replay fails exactly when some event is refused, and otherwise runs all touches in order |
| `ProgressTheorems.EventIsAcceptedExactlyWhen` | crates/runnel-core/src/consumer_state.rs:113-188 | an event is accepted if and only if its attempt numbers are positive, or its policy is configured with a version, times of at most seven days and no limit of zero attempts |
| `ProgressTheorems.ReachableStatesPassValidate` | crates/runnel-core/src/consumer_state.rs:190-227 | every state reached by any accepted events passes `validate`; an attempted offset gets its pinned policy, any other the configured or legacy policy, and a missing pinned policy is never reported |
| `ProgressTheorems.DeliveryLifetime` | crates/runnel-core/src/consumer_state.rs:115-186 | along any events: committed never falls, acknowledged offsets stay so and carry no attempt, policy or schedule, and until then the attempt counter never decreases and the pinned policy never changes |
| `ProgressTheorems.EventsLeadLater` | crates/runnel-core/src/consumer_state.rs:115-186 | any accepted events lead to a later state: the delivery lifetime as one order on states, which is transitive |
| `ProgressTheorems.AcknowledgementSettlesExactly` | crates/runnel-core/src/consumer_state.rs:94-111 | any single and batch acknowledgements settle exactly the named offsets, committed is the least unacknowledged offset, and all other offsets are untouched |
| `ProgressTheorems.AcknowledgementIsCanonical` | crates/runnel-core/src/consumer_state.rs:176-181 | any order, repetition or batching of acknowledgements that name the same offsets gives the same state |
| `ProgressTheorems.ValidateAloneIsNotInductive` | crates/runnel-core/src/consumer_state.rs:207-227 | a concrete state that passes `validate` and fails it after one acknowledgement |
| `ProgressTheorems.ValidateSurvivesAckExactlyWhen` | crates/runnel-core/src/consumer_state.rs:98-107 | from any state that passes `validate`, an acknowledgement keeps it if and only if it does not close a gap below an offset with a retry schedule: a condition on the state before the call |
| `ProgressTheorems.CommittedOffsetLeavesRangeExactlyWhen` | crates/runnel-core/src/consumer_state.rs:94-111 | the committed offset exceeds 64 bits if and only if every 64-bit offset is acknowledged |
| `ConsumerStateObject.ConsumerState.Acknowledge` | crates/runnel-core/src/consumer_state.rs:94-111 | the in-place acknowledgement with its drain loop equals the value-level acknowledgement |
| `ConsumerStateObject.ConsumerState.DeliverOne` | crates/runnel-core/src/consumer_state.rs:115-135 | the in-place delivery update: counters merge by maximum, the first policy wins, the schedule is cleared, acknowledged offsets are ignored |
| `ConsumerStateObject.ConsumerState.ApplyOne` | crates/runnel-core/src/consumer_state.rs:113-188 | applies an event exactly when it is accepted; a refused event reports its reason and changes nothing |
| `ConsumerStateObject.ConsumerState.Validate` | crates/runnel-core/src/consumer_state.rs:207-227 | true exactly when every attempt is positive and pinned and every policy and schedule belongs to an attempt |
| `ConsumerStateObject.ConsumerState.RetryFilter` | crates/runnel-core/src/consumer_state.rs:73-92 | exactly the offsets scheduled after now, and exactly their keys |
| `EventLogTheorems.SplitOfLines` | crates/runnel-core/src/consumer_state.rs:471-512 | splitting a journal of encoded events plus any newline-free tail gives back the encodings and the tail |
| `EventLogTheorems.LoadRecovers` | crates/runnel-core/src/consumer_state.rs:244-268 | for every journal of accepted events with a torn tail, a load returns the checkpoint with the events applied and leaves the file equal to the encoding of those events |
| `EventLogTheorems.LoadKeepsMeaning` | crates/runnel-core/src/consumer_state.rs:244-268 | a load with any I/O failure keeps what the files stand for; it fails only with that I/O error, never with a bound or corruption error |
| `EventLogTheorems.DurableIsFunctional` | crates/runnel-core/src/consumer_state.rs:471-512 | files stand for at most one state |
| `EventLogTheorems.CompactKeepsMeaning` | crates/runnel-core/src/consumer_state.rs:384-408 | compaction that stops or fails at any call leaves files for the same state, and an empty journal when it completes |
| `EventLogTheorems.AppendIsAtomic` | crates/runnel-core/src/consumer_state.rs:409-425 | an append cut at any byte, or whose sync fails, leaves files for the state before or after the event, decided by whether the whole line was written, unless it exceeds the bound |
| `EventLogTheorems.MakeRoomKeepsMeaning` | crates/runnel-core/src/consumer_state.rs:384-408 | making room for any event keeps what the files stand for, even when it fails; when it succeeds the line fits, or the journal is empty and the line alone is too long |
| `EventLogTheorems.PersistIsAtomic` | crates/runnel-core/src/consumer_state.rs:348-425 | for every event and failure: success is reported exactly when no call fails, the journal stays within its bound if and only if the append alone does, and then persisting is all or nothing |
| `EventLogTheorems.PersistThenLoad` | crates/runnel-core/src/consumer_state.rs:348-425 | for every event and failure, the next load fails exactly when the append overflowed the journal, and otherwise returns exactly the state before or after the event |
| `EventLogTheorems.OverflownIsRefused` | crates/runnel-core/src/consumer_state.rs:483-488 | files past the bound are refused by every load and left alone |
| `EventLogTheorems.PersistRepairs` | crates/runnel-core/src/consumer_state.rs:384-425 | over files past the bound, persisting for a broker that still knows the state leaves them past the bound or standing for the state before or after the event |
| `EventLogTheorems.OversizedEventIsLostExactlyWhen` | crates/runnel-core/src/consumer_state.rs:384-424 | without I/O failures: when persisting an oversized event succeeds, and when the following load succeeds, each if and only if |
| `LoadSafety.SplitExists` | crates/runnel-core/src/consumer_state.rs:471-512 | any journal is complete lines without newlines and a rest without one |
| `LoadSafety.SplitIsUnique` | crates/runnel-core/src/consumer_state.rs:471-512 | in exactly one way |
| `LoadSafety.LoadFailsClosed` | crates/runnel-core/src/consumer_state.rs:471-512 | for any files within the bound: a load succeeds if and only if every complete line decodes to an accepted event, the rest is empty, no JSON text or an event, and the events applied to the checkpoint pass the self-check; otherwise the files are unchanged, except that a torn rest is cut before the self-check |
| `LoadSafety.FirstBadLineIsReported` | crates/runnel-core/src/consumer_state.rs:491-505 | the first line that is no accepted event decides the error, malformed or refused with its reason, and the files are unchanged |
| `LoadSafety.LoadFaultsOnlyStop` | crates/runnel-core/src/consumer_state.rs:244-268 | an I/O failure can only stop a load early; the files are as before or as the load without it leaves them |
| `LoadSafety.PersistLeaves` | crates/runnel-core/src/consumer_state.rs:384-425 | when the append is reached: the written bytes follow the old journal if the line fits, and otherwise stand alone over a checkpoint of the current state |
| `LoadSafety.PersistReports` | crates/runnel-core/src/consumer_state.rs:409-456 | a failed persist is staged exactly for batch events; the stage is before the append, append or sync exactly when that is where it failed, and before the append no byte of the event is written |
| `LoadSafety.BatchFailuresAreStaged` | crates/runnel-core/src/consumer_state.rs:356-361 | for the consumer, exactly the failures of delivery batches, retry schedules and acknowledgement batches are staged |
| `LogFiles.Files.ReplayJournal` | crates/runnel-core/src/consumer_state.rs:471-512 | the reading loop returns the replayed state, or the first error, and the length of the valid part |
| `LogFiles.Files.TruncateJournal` | crates/runnel-core/src/consumer_state.rs:514-519 | the journal is cut to the length unless it is missing or the call fails |
| `LogFiles.Files.LoadState` | crates/runnel-core/src/consumer_state.rs:244-268 | the in-place load gives the value-level result and files, failures included |
| `LogFiles.Files.PersistEvent` | crates/runnel-core/src/consumer_state.rs:348-425 | the in-place persist gives the value-level result and files, failures included, in the order checkpoint, truncate, append |
| `ConsumerJournal.FoldIsReplay` | crates/runnel-core/src/consumer_state.rs:113-188 | folding accepted events equals replaying them |
| `ConsumerJournal.ConsumerLogIsLawful` | crates/runnel-core/src/consumer_state.rs:395-408 | the consumer state machine keeps its invariant, its invariant implies `validate`, and its replay is idempotent |
| `DeliveryIndex.InsertKeepsExact` | crates/runnel-core/src/delivery_state.rs:241-266 | inserting an offset not in flight puts exactly that delivery into the map and keeps buckets, offsets, keys and member sets exactly its projections |
| `DeliveryIndex.InsertStores` | crates/runnel-core/src/delivery_state.rs:241-266 | after any insertion the delivery is in the map under its consumer and offset, and every other key is as before |
| `DeliveryIndex.InsertKeepsKeysExclusive` | crates/runnel-core/src/delivery_state.rs:241-266 | keys stay exclusive per consumer if and only if the new key is not reserved |
| `DeliveryIndex.SwapRemoveDrops` | crates/runnel-core/src/delivery_state.rs:339-369 | swap removal from a bucket drops exactly one key and keeps the rest distinct |
| `DeliveryIndex.RemoveKeepsExactExactlyWhen` | crates/runnel-core/src/delivery_state.rs:339-369 | the indexes stay exact after a removal if and only if the delivery is the only holder of its key |
| `DeliveryIndex.RemoveAllKeepsExact` | crates/runnel-core/src/delivery_state.rs:339-369 | removing any list of deliveries keeps the indexes exact and keys exclusive |
| `DeliveryIndex.RemoveAllRemoves` | crates/runnel-core/src/delivery_state.rs:339-369 | removing a list removes exactly those deliveries |
| `DeliveryIndex.RunKeepsExact` | crates/runnel-core/src/delivery_state.rs:84-96 | every run of permitted inserts and removals keeps the indexes exact |
| `DeliveryIndex.SharedKeyBreaksTheIndex` | crates/runnel-core/src/delivery_state.rs:339-369 | two deliveries with one key: the index is wrong after one is removed |
| `DeliveryExpiry.ExpireBucketIsExact` | crates/runnel-core/src/delivery_state.rs:105-127 | although a bucket is popped before its deliveries leave the map, afterwards exactly the bucket's deliveries are gone and all indexes are exact again |
| `DeliveryExpiry.ExpiryIsExact` | crates/runnel-core/src/delivery_state.rs:105-127 | expiry leaves exactly the deliveries with a deadline after now, unchanged, with exact indexes |
| `DeliveryQueries.ExpiredExactlyWhenDue` | crates/runnel-core/src/delivery_state.rs:129-197 | the expired list is non-empty if and only if the next deadline is at or before now |
| `DeliveryQueries.DueKeys` | crates/runnel-core/src/delivery_state.rs:129-138 | walking the due buckets lists each due key exactly once, in deadline order |
| `DeliveryQueries.InOrder` | crates/runnel-core/src/delivery_state.rs:165-189 | resolving a member's offsets lists all its deliveries in ascending offset order and never fails |
| `DeliveryQueries.EarliestDeadline` | crates/runnel-core/src/delivery_state.rs:191-197 | the least deadline among the consumer's deliveries, or none exactly when it has none |
| `DeliveryQueries.ScanFilter` | crates/runnel-core/src/delivery_state.rs:208-232 | the scan branch returns exactly the offsets not excluded and their keys |
| `DeliveryStateObject.DeliveryState.constructor` | crates/runnel-core/src/delivery_state.rs:100-102 | a new state has no deliveries, no cached states, nothing to reconcile, and exact indexes |
| `DeliveryStateObject.DeliveryState.Add` | crates/runnel-core/src/delivery_state.rs:241-266 | the in-place insertion puts exactly that delivery into the map, gives the value-level indexes, leaves cache and reconcile set alone, and keeps the indexes exact when offset and key are free |
| `DeliveryStateObject.DeliveryState.RemoveInFlight` | crates/runnel-core/src/delivery_state.rs:339-369 | the in-place removal gives the value-level indexes, returns the removed delivery, if any, and keeps the indexes exact |
| `DeliveryStateObject.DeliveryState.Expire` | crates/runnel-core/src/delivery_state.rs:105-127 | the loop terminates with the value-level expiry, returns true exactly when a delivery was removed, and keeps the indexes exact |
| `DeliveryStateObject.DeliveryState.ExpiredDeliveries` | crates/runnel-core/src/delivery_state.rs:129-138 | each due delivery of the consumer exactly once, in deadline order |
| `DeliveryStateObject.DeliveryState.MemberDelivery` | crates/runnel-core/src/delivery_state.rs:140-163 | the member's least offset, none exactly when it has none, and never a corrupt-record error |
| `DeliveryStateObject.DeliveryState.MemberDeliveries` | crates/runnel-core/src/delivery_state.rs:165-189 | all the member's deliveries in ascending order, and never a corrupt-record error |
| `DeliveryStateObject.DeliveryState.NextDeadline` | crates/runnel-core/src/delivery_state.rs:191-197 | the consumer's least deadline |
| `DeliveryStateObject.DeliveryState.InFlightFilter` | crates/runnel-core/src/delivery_state.rs:199-206 | absent exactly when the consumer has no delivery; otherwise exactly its offsets and keys |
| `DeliveryStateObject.DeliveryState.FilterExcluding` | crates/runnel-core/src/delivery_state.rs:208-232 | the indexed branch and the scan branch compute the same filter |
| `DeliveryStateObject.DeliveryState.CacheConsumerState` | crates/runnel-core/src/delivery_state.rs:313-333 | exactly as many entries are evicted as exceed 1,024, the rest is unchanged, and an active consumer goes only if every consumer left is active |
| `DeliveryStateObject.DeliveryState.MarkNeedsReconcile` | crates/runnel-core/src/delivery_state.rs:308-311 | the cached entry is dropped, the consumer is marked, nothing else changes |
| `DeliveryStateObject.DeliveryState.LoadForRequest` | crates/runnel-core/src/delivery_state.rs:275-306 | the three ways a request obtains a state, with every load and sync failure, as one relation on memory, files and result |
| `BrokerMemory.ActiveIsEvictedLast` | crates/runnel-core/src/delivery_state.rs:313-333 | from a cache within its bound at most one consumer is evicted, and an active one only if every cached consumer, the new one included, is active |
| `BrokerMemory.ReconcileDropsExactlyStale` | crates/runnel-core/src/delivery_state.rs:281-299 | a reconcile removes exactly the consumer's deliveries the recovered state counts as acknowledged; every other delivery survives unchanged, indexes stay exact, and a cached entry is the recovered state |
| `BrokerActions.DeliveryUpdateIsEvent` | crates/runnel-core/src/broker.rs:1131-1192 | assigning a batch by hand gives the state the batch event gives |
| `BrokerActions.ScheduleUpdateIsEvent` | crates/runnel-core/src/broker.rs:1710-1764 | inserting schedules by hand gives the state the schedule event gives |
| `BrokerActions.LocalUpdateIsEvent` | crates/runnel-core/src/broker.rs:652-696 | for every action of the broker, the hand-written update of its copy equals the event it persisted |
| `BrokerActions.ActionIsFelt` | crates/runnel-core/src/broker.rs:652-696 | for every action and offset: a handed-out record counts the next attempt, pins its policy and loses its schedule, acknowledged and dead-lettered offsets are settled, scheduled ones wait, every other offset is unchanged |
| `BrokerGuards.ActionKeepsLimits` | crates/runnel-core/src/broker.rs:607-616 | on a stream that holds no dead letters, no action the broker takes moves an attempt counter past the limit of its pinned policy |
| `BrokerEffects.PermittedExactlyWhenFree` | crates/runnel-core/src/broker.rs:75-113 | with exact indexes, the index test for a candidate equals a scan of all deliveries |
| `BrokerEffects.EffectKeepsExact` | crates/runnel-core/src/broker.rs:652-696 | every action's change to the deliveries keeps the indexes exact and keys exclusive |
| `BrokerEffects.EffectFlights` | crates/runnel-core/src/broker.rs:1757-1759 | the deliveries in flight after every action: exactly those before, with every handed-out delivery under its offset, without the acknowledged or released ones |
| `BrokerEffects.FlightsRecordedAfterAction` | crates/runnel-core/src/broker.rs:1405-1424 | after every action each delivery in flight is an attempt recorded in the state, with the same counter |
| `BrokerEffects.FlightsKnownAfterEvent` | crates/runnel-core/src/broker.rs:1405-1424 | if the event reached the files but the broker saw a failure, each delivery in flight is recorded there or acknowledged there |
| `BrokerEffects.EffectKeepsOtherConsumers` | crates/runnel-core/src/broker.rs:1294-1321 | an action leaves every delivery of every other consumer unchanged |
| `BrokerRun.RequestedAgrees` | crates/runnel-core/src/delivery_state.rs:275-306 | from the cache, from the files or by reconciling, a request obtains exactly the state the files stand for, or an error that changes nothing they stand for |
| `BrokerRun.RequestIsServed` | crates/runnel-core/src/delivery_state.rs:275-306 | a cached state is served whatever fails and without touching the files; when no call fails, a request is served if and only if the state is cached or the journal is within its bound |
| `BrokerRun.StepKeepsInvariant` | crates/runnel-core/src/delivery_state.rs:84-96 | every step of the broker, with events of any length, keeps cache, files, indexes and deliveries in agreement for every consumer |
| `BrokerRun.CacheRefinesFiles` | crates/runnel-core/src/delivery_state.rs:275-333 | at every point of every run the indexes are exact, keys in flight exclusive and the cache within its bound; a load of the files succeeds if and only if the journal is within its bound, and then returns the cached state and the state the request holds, and unless a reconcile is pending each delivery in flight is recorded with its attempt and not acknowledged |
| `BrokerRun.ProgressIsNeverLost` | crates/runnel-core/src/consumer_state.rs:396-398 | across requests, failed writes and process stops, what is recovered later is a later state, and a delivery handed out later is for an offset not acknowledged before, with a higher attempt number as far as 32 bits allow |
| `BrokerRun.CommitOverflowsExactlyWhen` | crates/runnel-core/src/consumer_state.rs:384-424 | in any run, a commit takes readable files past the bound if and only if its append alone exceeds it |
| `BrokerRun.RunsWithoutOverflowStayReadable` | crates/runnel-core/src/consumer_state.rs:483-488 | as long as no commit of a run overflows, every load succeeds |
| `BrokerRun.FittingEventsStayReadable` | crates/runnel-core/src/consumer_state.rs:384-424 | if the line of every committed event fits the journal bound, every load of the run succeeds, whatever fails |
| `BrokerRun.OverflownStaysRefused` | crates/runnel-core/src/delivery_state.rs:275-306 | once files are past the bound and the broker has forgotten the consumer, they stay so for the rest of the run and no request for it begins |
| `JournalOverflow.ScheduleOverflows` | crates/runnel-core/src/broker.rs:1670-1764 | for more expired deliveries than fit, each held by a member of its own under a configured policy, the one event that schedules them passes every check of the broker and is persisted without a failure, and the files can no longer be loaded |
| `JournalOverflow.OverflowIsReachable` | crates/runnel-core/src/broker.rs:1710-1764 | with the sample serializer, a run of the broker in which every check passes and every call succeeds and at whose end the files cannot be loaded |
| `BrokerLimits.MembersHoldAtMostOneBatch` | crates/runnel-core/src/broker.rs:978-1001 | at every point of every run a member holds at most 1,024 deliveries of a consumer, because it is handed new ones only while it holds none |
| `BrokerLimits.AttemptsStayWithinLimits` | crates/runnel-core/src/broker.rs:607-616 | on a stream that holds no dead letters, at every point of every run, across failed writes and process stops, no recovered, held or cached state has an attempt counter past the limit of its pinned policy |
| `BrokerLimits.DeadLettersHaveNoLimit` | crates/runnel-core/src/broker.rs:607-616 | on a stream that holds dead letters, a record at its limit is delivered again |
| `Varint.EncodeVarint` | scripts/benchmarks/v2_client.py:36-44 | the encoding loop yields the base-128 groups, and an error exactly outside 64 bits |
| `Varint.ReadVarintAt` | scripts/benchmarks/v2_client.py:78-90 | the reading loop at any cursor equals reading the rest on its own, with the end position moved by the cursor |
| `Varint.ReadOfEncoding` | scripts/benchmarks/v2_client.py:36-90 | reading an encoding followed by any bytes returns the value and its exact end |
| `Varint.AcceptedVarint` | scripts/benchmarks/v2_client.py:78-90 | an accepted varint is within 64 bits, at most ten bytes, and no shorter than the encoder's output; the loop's final error is never reached |
| `Varint.ReadIsLocal` | scripts/benchmarks/v2_client.py:78-90 | bytes after an accepted varint do not change what is read |
| `WireGrammar.VarintIsReadExactlyWhen` | scripts/benchmarks/v2_client.py:78-90 | a value and length are read if and only if the bytes start with that varint of at most ten bytes and 64 bits; exactly when they are truncated or too large for any other bytes |
| `ProtoFields.FirstFieldAdvances` | scripts/benchmarks/v2_client.py:93-125 | every accepted field moves the cursor forward within the body |
| `ProtoFields.FirstFieldIsLocal` | scripts/benchmarks/v2_client.py:93-125 | bytes after an accepted field do not change it |
| `ProtoFields.ParseFields` | scripts/benchmarks/v2_client.py:93-125 | the cursor loop computes the recursive parse, errors included |
| `ProtoFields.ParseOfConcatenation` | scripts/benchmarks/v2_client.py:93-125 | an accepted body followed by anything parses to its fields followed by the parse of the rest |
| `ProtoFields.ParseOfBytesField` | scripts/benchmarks/v2_client.py:53-54 | parsing an encoded bytes field gives back number and content |
| `ProtoFields.ParseOfVarintField` | scripts/benchmarks/v2_client.py:47-50 | parsing an encoded number field gives back the value, and nothing for zero |
| `ProtoFields.MatchesOfConcatenation` | scripts/benchmarks/v2_client.py:128-152 | selecting fields by number distributes over concatenation, so repeated fields keep their order |
| `WireGrammar.BodyIsParsedExactlyWhen` | scripts/benchmarks/v2_client.py:93-125 | a body is parsed into fields if and only if it is, in the grammar of the format, those fields one after the other |
| `WireGrammar.LookupIsExact` | scripts/benchmarks/v2_client.py:128-143 | a lookup finds nothing, a value or an error exactly when no field, a single field of the right wire type, or anything else has the number |
| `RequestRoundTrip.MessageIsParsed` | scripts/benchmarks/v2_client.py:47-69 | a message of encoded parts parses to exactly the fields of its parts |
| `RequestRoundTrip.EveryPartIsFound` | scripts/benchmarks/v2_client.py:128-143 | with distinct numbers, looking a part up by its number returns its content, absent and empty told apart |
| `RequestRoundTrip.RecordIsRecovered` | scripts/benchmarks/v2_client.py:238-311 | a nested batch record is recovered from its bytes |
| `RequestRoundTrip.BatchIsRecovered` | scripts/benchmarks/v2_client.py:238-311 | a batch is recovered with its records in order |
| `RequestRoundTrip.EncodedRequestIsRecovered` | scripts/benchmarks/v2_client.py:238-311 | for every supported operation, parsing the nested encoding recovers the operation and every field, including omitted zero offsets and absent versus empty text |
| `RequestRoundTrip.EncoderIsInjective` | scripts/benchmarks/v2_client.py:238-311 | requests with the same bytes are equal |
| `RequestAcceptance.RequestIsEncodedExactlyWhen` | scripts/benchmarks/v2_client.py:238-311 | a request is encoded if and only if its operation is supported, its offset is in 64 bits, it has 1 to 1,024 records, its texts and payloads are present and its length fits 64 bits; which error it gets otherwise |
| `RequestAcceptance.CompleteRequestIsEncoded` | scripts/benchmarks/v2_client.py:238-311 | the exact length of the encoding, from the lengths of the fields |
| `RequestAcceptance.CompleteRequestIsRecovered` | scripts/benchmarks/v2_client.py:238-311 | every complete request that fits is encoded and read back as itself |
| `ClientConnection.RequestKeepsPairing` | crates/runnel-client/src/lib.rs:692-746 | a request on a connection at rest leaves none or one at rest, and a reply is the frame at the request's own position |
| `ClientConnection.OutcomeIsDetermined` | crates/runnel-client/src/lib.rs:692-746 | the outcome of every call on a connection at rest, case by case, from the request, the connection, the network and the frame with the request's own index; the connection is used exactly for a sendable request and available again exactly after a reply |
| `ClientConnection.FailureClassIsSound` | crates/runnel-client/src/lib.rs:525-545 | a failure is retryable if and only if the request encodes and there is no connection; rejected if and only if it does not encode, exceeds the connection's limit or is answered with an authentication failure; unknown exactly for the other failures of a request that used the connection; retryable and locally rejected ones wrote nothing |
| `ClientConnection.RunStaysReady` | crates/runnel-client/src/lib.rs:667-746 | after any run of requests, failures, cancellations, refused replies and reconnects, an available connection is at rest |
| `ClientConnection.RepliesAreNeverMisattributed` | crates/runnel-client/src/lib.rs:692-746 | in any run, the reply to a request is decoded from the frame with the request's own index on its connection |
| `ClientConnection.FailuresAreNeverMisclassified` | crates/runnel-client/src/lib.rs:525-545 | the same conditions, both ways, for every failed request of any run |
| `ClientConnection.Client.Request` | crates/runnel-client/src/lib.rs:692-746 | take, use, put back or drop: the in-place request gives the value-level connection and outcome |
| `ClientConnection.Client.Renew` | crates/runnel-client/src/lib.rs:667-672 | a reconnect replaces the connection on success and keeps it on failure |
| `TypedReplies.TypedReplyIsFaithful` | crates/runnel-client/src/lib.rs:2244-2280 | a typed value is returned exactly for a response the server vouched for, whole or item by item, that parses; a declined operation reports the server's verdict; everything else is a reply of the wrong shape |
| `TypedReplies.ItemsAreVouchedExactlyWhen` | crates/runnel-client/src/lib.rs:2244-2280 | without an overall verdict: exactly the consistent publish batches, fully confirmed poll batches and acknowledgement batches whose rejected items are the unconfirmed ones are vouched for |
| `TypedReplies.CallTypedIsRequest` | crates/runnel-client/src/lib.rs:1699-1714 | on the connection, a typed request is a request of a run, so the theorems about runs cover it |
| `TypedReplies.TypedValuesAreVouched` | crates/runnel-client/src/lib.rs:1699-1714 | a typed value comes from a vouched response in the frame paired with the request, a client-side failure is classified by the conditions above, an available connection is at rest, and a reply drops it exactly when it has the wrong shape |
| `TypedReplies.RequestTyped` | crates/runnel-client/src/lib.rs:1699-1714 | the in-place typed request gives the value-level result and connection; a reply of the wrong shape drops the connection |
| `PublishReplies.ZipIsPointwise` | crates/runnel-client/src/lib.rs:2119-2150 | combining metadata and outcomes succeeds if and only if every record is confirmed exactly when it was published; each result carries its own record's verdict, offset, code and message |
| `PublishReplies.BatchReplyIsFaithful` | crates/runnel-client/src/lib.rs:2093-2163 | always one outcome per record, and no overall failure exactly when the reply answers this stream and count consistently. Then each record is confirmed with this stream and its offset exactly where its verdict says so, and otherwise rejected, retryable or unknown exactly as its verdict, with its code and message. Any other reply fails every record alike, with the overall verdict, code and message or as an unexpected response |
| `PublishReplies.InvalidBatchIsRejected` | crates/runnel-client/src/lib.rs:889-908 | a batch of no or more than 1,024 records is rejected for every record without touching the connection |
| `PublishReplies.FailedBatchIsClassified` | crates/runnel-client/src/lib.rs:919-926 | a valid batch that gets no reply fails for every record alike: retryable exactly without a connection, rejected exactly when it cannot be sent or authentication failed |
| `PublishReplies.ConnectionIsKeptExactlyWhen` | crates/runnel-client/src/lib.rs:927-936 | after a reply the connection is kept if and only if the reply answers the batch or settles it as a whole |
| `PublishReplies.ConfirmedRecordsWerePublished` | crates/runnel-client/src/lib.rs:889-938 | a record reported confirmed was reported published, at that offset, in the reply paired with this very request |
| `PublishReplies.PublishBatchKeepsReady` | crates/runnel-client/src/lib.rs:889-938 | a batch leaves none or a connection at rest, and one outcome per record |
| `HotOrdering.GroupByKey` | scripts/benchmarks/cluster_scenarios.py:204-232 | the grouping loop yields each key's offsets in publish order |
| `HotOrdering.OffsetsComeFromRecords` | scripts/benchmarks/cluster_scenarios.py:204-232 | a key's expected list is ascending and holds exactly its published offsets |
| `HotOrdering.StepKeepsInvariant` | scripts/benchmarks/cluster_scenarios.py:234-319 | every accepted step keeps: delivered offsets split disjointly into processing, acknowledgement-started and completed; lists ascend; counters count; completions are distinct |
| `HotOrdering.RunKeepsInvariant` | scripts/benchmarks/cluster_scenarios.py:234-319 | the same along every run that passes its checks |
| `HotOrdering.CompletedRunsAreInOrder` | scripts/benchmarks/cluster_scenarios.py:2574-2587 | a run that passes its checks and completes as many offsets as records delivered every key exactly in publish order, leaves nothing in progress, and completed exactly each key's records |
| `HotOrdering.OverlapFlagIsExact` | scripts/benchmarks/cluster_scenarios.py:2247-2263 | a key's overlap flag is true if and only if at no moment of the run two of its offsets were in processing |
| `HotOrdering.HotBacklogIsPositive` | scripts/benchmarks/cluster_scenarios.py:274-277 | when a hot record is delivered, at least one hot record, itself, is still to be completed |
| `HotOrdering.BacklogsAreMeaningful` | scripts/benchmarks/cluster_scenarios.py:311-319 | in every run each recorded backlog is between one and the number of hot records, progress under backlog is recorded for cold keys only, and a key recorded as finished had all its records completed |
| `HotMeasurements.RunPassesExactlyWhenOrderly` | scripts/benchmarks/cluster_scenarios.py:234-319 | no check fails if and only if every delivery is the first of a published record, with attempt 1 and beyond its key's earlier ones, and every offset is acknowledged and completed at most once, in that order |
| `HotMeasurements.MeasurementsAreExact` | scripts/benchmarks/cluster_scenarios.py:249-319 | after every run that passes, sets, lists and counters are those of the events; the in-flight marks are the largest numbers in processing at any moment; each recorded backlog is the number of hot records published minus those completed at that moment; cold progress is exactly the completions while hot records remained |
| `HotOrderingRecorder.HotOrderingObservation.constructor` | scripts/benchmarks/cluster_scenarios.py:204-232 | a new recorder expects the records and has observed nothing |
| `HotOrderingRecorder.HotOrderingObservation.RecordDelivery` | scripts/benchmarks/cluster_scenarios.py:234-277 | the in-place recording equals the value-level one, and a refused delivery changes nothing |
| `HotOrderingRecorder.HotOrderingObservation.RecordAckStart` | scripts/benchmarks/cluster_scenarios.py:279-286 | the same for the start of an acknowledgement; with an unknown key the offset has already left processing |
| `HotOrderingRecorder.HotOrderingObservation.RecordCompletion` | scripts/benchmarks/cluster_scenarios.py:288-319 | the same for a completion; with an unknown key the offset has already moved to the completed ones |
| `HotOrderingRecorder.HotOrderingRecords` | scripts/benchmarks/cluster_scenarios.py:2179-2206 | the nested loops build the numbered schedule of rounds; errors exactly for non-positive dimensions and for more than 4,096 records |
| `HotOrderingRecorder.ScheduleMeetsPlan` | scripts/benchmarks/cluster_scenarios.py:2179-2206 | for all positive dimensions the schedule is in publish order and has the requested total, and it gives the hot key and every cold key exactly the requested number of records if and only if the hot key is none of the plan's cold keys |
| `HotOrderingRecorder.ScheduleInterleaves` | scripts/benchmarks/cluster_scenarios.py:2198-2206 | the schedule position by position: each round is a hot record, while any are left, then one record of every cold key in order, while any are left |
| `HotOrderingRecorder.ClashMergesCounts` | scripts/benchmarks/cluster_scenarios.py:2179-2206 | a hot key that is a cold key of the plan gets the records of both |
| `HotOrderingRecorder.ClashingPlan` | scripts/benchmarks/cluster_scenarios.py:2179-2206 | a plan of one hot and one cold record in which both have the same key |
| `HotOrderingRecorder.DefaultHotKeyIsNotCold` | scripts/benchmarks/cluster_scenarios.py:49-49 | the default hot key is none of the cold keys of any plan |

## Left out

- The stream and consumer names stored in a consumer state, and file paths.
- serde_json: an abstract codec with the three laws above; checkpoints are stored as values.
- Directory entries, fsync timing and loss of unsynced data at power failure: rename and `set_len` are atomic, written bytes stay.
- The stream log: any offset and key may be the next candidate record. Tokens and receipts of acknowledgements, response size limits, waiting and notification: each can only end a request early.
- JournalOverflow.OverflowIsReachable: shown for the sample serializer, because the length of serde_json's texts is not modelled.
- Clocks: each check reads some time, and readings of different checks are not related to each other.
- Locks and threads of the broker: one request at a time per stream, as its stream lock enforces.
- Delivery tokens, their epoch and uniqueness across restarts.
- The Raft backend, the v2 Rust codec, TLS, sockets, timers, bearer tokens, credential files and the security role table.
- Connection negotiation: a new connection starts with nothing written and nothing read. Timeouts, I/O errors and cancellations at any point are inputs.
- 64-bit offsets: unbounded in the model; `CommittedOffsetLeavesRangeExactlyWhen` says when the counter of the source would overflow.
- The parsers of the individual typed responses: any function from responses to values.
- Connection establishment, and so the classes of errors that arise only there.
- Text of error messages and diagnostics, apart from those a server sends with an error; UTF-8 (text is its bytes) and the Python client's response decoding and range check of its dictionary input.
- The recorder's latency, waiting and drain times, and percentiles; strict completion order, which the checks do not imply.
- Benchmark orchestration, resource sampling, report rendering, statistics and the dashboard.
