# Invenqor agent: model and proofs

A Dafny model of the parts of the Invenqor agent and console whose correctness
is hard to see from the code, with proofs of what they are for. Each module
follows one component; the imperative ones are classes and methods with the
loops of the original, proved against functions whose properties are lemmas.

| file | component |
|---|---|
| `Inventory.dfy` | records, last-wins indexing, the effective inventory, the diff and what a patch means |
| `Replication.dfy` | every run of collecting, queueing, delivering, crashing and damage, against a reader that replays the events |
| `QueueStore.dfy` | the durable queue directory: names, order, limit, quarantine |
| `Agent.dfy` | the agent object, whose methods perform the steps of `Replication.dfy` over `QueueStore.dfy` |
| `RunLoop.dfy` | the main loop: wake-up times, backoff, when it does not sleep |
| `Collection.dfy` | one cycle over all collectors, and packages of users who are not logged on |
| `DurableFs.dfy`, `Install.dfy` | atomic writes and the swap of the agent binary, with a crash between any two steps |
| `Release.dfy`, `Updater.dfy` | versions, the signed message, offers, and the installed version over whole runs |
| `Calendar.dfy` | the closed-form calendar and the timestamps printed from it |
| `Smbios.dfy` | the walk over the firmware's structure table |
| `Treemap.dfy` | the squarified treemap over real numbers |
| `QrCode.dfy` | a QR matrix as an SVG path and as pixels |
| `Csv.dfy` | CSV printing, and a reader that inverts it |
| `SilentSso.dfy` | the guards against repeated silent sign-in |
| `Text.dfy`, `Wrappers.dfy`, `Machine.dfy` | strings and decimal numbers, `Option` and `Result`, machine integers and outcomes of writes |

System calls, clocks, the network, the self-test of a binary and the browser's
storage appear as parameters that say what happened; every theorem holds for
all their values. The SHA-256 digest and the signature checks are arbitrary
functions. A file write has three outcomes: it lands and is flushed, it lands
and still reports an error (only the directory flush failed), or it does not
land. A crash between two writes is a later write that does not happen.

## Where code and documentation differ

The model follows the code. Each point names the members that state it.

- `src/durablefs.rs:36-37`: a write can replace its target and still return an
  error. An enqueue that ends so has queued its event; the cycle counts as
  interrupted (`Replication.EveryRunInSync`). An installation that ends so has
  put the new binary in place although it reports a failure
  (`Install.FlushErrorOccurs`); when exactly an error leaves the old binary is
  `Install.ErrorKeepsOldBinary`.
- `src/storage.rs:80-87` says that losing the stored inventory costs a full
  snapshot. That is so if and only if the hash is gone too. Otherwise a change
  list is sent in which everything is Added, and exactly what the reader held and
  the cycle did not observe stays with the reader
  (`Replication.AfterLostInventory`, `Replication.LostInventoryStrands`).
- Events reach the server in queue order without the ones set aside, unless an
  event was accepted, its reply was lost, and the file turned unreadable before
  the retry (`Replication.DrainedOrder`, `Replication.AcceptedThenSetAside`).
- With crashes, reader and baseline need not agree. In every undamaged run they
  differ exactly on the suspects (`Replication.SuspectsExact`), so they are equal
  if and only if nothing is a suspect (`Replication.ReaderHoldsBaselineIff`). A
  difference begins exactly with an interrupted cycle whose event names the
  identifier, and ends exactly with a completed cycle that reports it or a full
  snapshot (`Replication.DifferenceEnds`). A first cycle cut off after its hash
  and before its inventory is such a case (`Replication.InterruptedFirstCycle`):
  while the identifier is not observed again it stays with the reader
  (`Replication.StrandedForever`).
- First-in first-out holds below the top of the 128-bit sequence
  (`QueueStore.SequenceAdvances`, `QueueStore.SaturatedOrder`).
- The main loop does not hold back a heartbeat that cannot be queued: with a
  full queue and an overdue heartbeat it turns without sleeping
  (`RunLoop.SleepsUnlessOverdue`, `AgentModel.Agent.FullQueueSpins`).
- A comment in `deliver` says that a rejected credential is replaced once per
  cycle. The code does it once for every event it is rejected for: the exact
  count is in the contract of `AgentModel.Agent.Deliver`, and
  `AgentModel.Agent.RenewedForEveryEvent` is a cycle with one replacement for
  each of any number of events.
- The installed version never goes back if every attempt is made by the binary
  that is installed. A process that is older than the installed binary by more
  than a single version step can move it back, and only such a one
  (`Updater.RunnerMustNotBeBehind`, `Updater.OlderRunnerMovesBack`).
- The signer's version pattern has no upper bound, the agent's numbers have 64
  bits (`Release.SignerAndAgentAgree`, `Release.SignerGoesBeyondAgent`).
- `web/src/silentSso.ts` says that nothing is lost when a mark cannot be written.
  When the storage can still be read, the page attempts again on the next visit
  (`SilentSso.AttemptsExactly`, `SilentSso.LostMarkTriesAgain`); only the address
  a refusal lands on is safe whatever was lost (`SilentSso.NoAttempt`).
- CSV text reads back as the table exactly when no row is without columns
  (`Csv.RoundTrip`), and with a reader that accepts a final line feed only when
  the last row is not one empty cell (`Csv.EndedRoundTrip`).

## Model

| member | source | states |
|---|---|---|
| `Inventory.EffectiveInventory` | src/storage.rs:122-138 | the observed records, or after a degraded cycle the merge of the previous ones under them, listed by identifier |
| `Inventory.EffectiveView` | src/storage.rs:122-138 | its map: the current records when removals are allowed, else previous overridden by current, duplicates last-wins |
| `Inventory.Diff` | src/storage.rs:140-186 | computes exactly one correct change per differing identifier, in increasing order |
| `Inventory.DiffIsPatch` | src/storage.rs:122-186 | applying the diff to the previous view gives the view of the effective inventory, for both values of the removal flag |
| `Inventory.DiffNamesDisagreements` | src/storage.rs:140-186 | a change names an identifier if and only if the two views disagree there; identifiers strictly increase |
| `Inventory.DiffSays` | src/storage.rs:140-186 | a change is Added, Updated or Removed exactly by which side has the identifier, and carries that side's record and category |
| `Inventory.DiffMinimal` | src/storage.rs:140-186 | any change list with the same effect is at least as long and names every identifier the diff names |
| `Inventory.ApplyIdempotent` | src/storage.rs:140-186 | applying a change list twice equals applying it once |
| `Inventory.EffectiveSortedUnique` | src/storage.rs:122-138 | from inventories sorted without repeats the effective inventory is again sorted without repeats |
| `Inventory.QuietCycleSameListing` | src/storage.rs:53-78 | with unique identifiers an empty change list means the same list of stable records, hence the same hash |
| `Inventory.QuietCycleKeepsListingIff` | src/storage.rs:53-78 | quiet cycles keep the hash input, for every observation and both flags, if and only if the stored inventory is sorted without repeats |
| `Inventory.QuietCycleNeedsUniqueIds` | src/storage.rs:53-78 | a stored inventory with a repeat for which it fails |
| `Replication.EveryRunInSync` | src/scheduler.rs:111-191 | in every run whatsoever, replaying accepted then pending events gives the baseline on every identifier not under suspicion |
| `Replication.SuspectsExact` | src/scheduler.rs:145-176 | in every undamaged run, with crashes between any two writes, reader and baseline differ on an identifier if and only if it is a suspect |
| `Replication.ReaderHoldsBaselineIff` | src/scheduler.rs:145-176 | in every undamaged run the reader holds exactly the baseline if and only if nothing is a suspect |
| `Replication.DifferenceEnds` | src/scheduler.rs:145-176 | which action begins a difference on an identifier, and which ends it, both exactly |
| `Replication.CrashRunsInSync` | src/scheduler.rs:145-176 | with crashes between any two writes, reader and baseline differ at most on identifiers named by events whose cycle was interrupted |
| `Replication.FaultFreeRunsExact` | src/scheduler.rs:119-177 | without crash or damage, under refusals, failed sends and lost replies, replay gives exactly the baseline |
| `Replication.DrainedServerHoldsBaseline` | src/scheduler.rs:220-309 | when nothing is pending, what the server accepted, repeats included, gives the baseline |
| `Replication.NoHashNoBaseline` | src/scheduler.rs:168-175 | in every undamaged run no stored hash means an empty baseline |
| `Replication.FullSnapshotClears` | src/scheduler.rs:119-176 | a completed clean cycle that sends a full snapshot clears every earlier disagreement |
| `Replication.PatchClears` | src/scheduler.rs:119-176 | a completed change list clears the identifiers it names |
| `Replication.InterruptedFirstCycle` | src/scheduler.rs:168-176 | the exception is real: a run after which reader and baseline differ through every undamaged continuation that does not observe the identifier |
| `Replication.StrandedForever` | src/scheduler.rs:139-176 | an identifier only the reader holds stays there through every undamaged run of change lists that does not observe it |
| `Replication.AfterLostInventory` | src/storage.rs:80-115 | after the inventory file is lost, a snapshot is sent if and only if the hash is gone; otherwise all changes are Added and exactly the reader's unobserved identifiers stay |
| `Replication.LostInventoryStrands` | src/storage.rs:80-115 | a run of that kind |
| `Replication.RefusedEnqueueKeepsBaseline` | src/storage.rs:209-228 | every run ends in the same queue, baseline and acceptance as the run without its refused and failed enqueues |
| `Replication.DeliveryOrder` | src/scheduler.rs:220-309 | in every run each event is in exactly one of pending, acknowledged, set aside; acknowledged ones were accepted; arrivals without repeats are in queue order |
| `Replication.DrainedOrder` | src/storage.rs:263-333 | what arrived equals queue order minus set-aside events if and only if none of those had arrived |
| `Replication.AcceptedThenSetAside` | src/scheduler.rs:226-300 | a run in which it differs |
| `Replication.RepeatsAreHarmless` | src/transport.rs:357-382 | repeated deliveries leave no trace in what the server holds |
| `Replication.RemovalsNeedCleanCycle` | src/scheduler.rs:518-520 | an identifier is reported removed if and only if a change list is sent, no collector failed, and it was in the baseline and not observed |
| `Replication.CycleQueues` | src/scheduler.rs:139-177 | a cycle queues an event if and only if there is no hash, something differs from the baseline, or the last heartbeat is a whole interval old; and everything that event says, in particular that it turns the baseline into the new one |
| `Replication.RunHashMatches` | src/scheduler.rs:142-177 | with unique identifiers the stored hash is the hash of the stored baseline, in every uninterrupted run |
| `Replication.QuietHeartbeatCarriesStoredHash` | src/scheduler.rs:142-177 | a cycle with nothing to report queues a heartbeat carrying the stored hash |
| `QueueStore.NamesFollowSequence` | src/storage.rs:209-238 | a new name sorts after every name with a smaller number, because of the 39-digit padding |
| `QueueStore.QueueNameSequence` | src/storage.rs:27-51 | every 128-bit number is read back out of its name |
| `QueueStore.SequenceAdvances` | src/storage.rs:209-228 | for any clock the next number exceeds the last if and only if the last is below the maximum |
| `QueueStore.SaturatedOrder` | src/storage.rs:209-228 | at the maximum a newer event can sort before an older one |
| `QueueStore.PendingAppend` | src/storage.rs:230-238 | a file that sorts last is appended to the pending list, and the size grows by its length |
| `QueueStore.StateStore.HighestSequence` | src/storage.rs:27-51 | the greatest number in the directory, zero when there is none |
| `QueueStore.StateStore.Open` | src/storage.rs:27-51 | after a restart the sequence is at least the clock and every number in use |
| `QueueStore.QueueBytesWrite` | src/storage.rs:335-342 | writing an event file, new or over another, makes the queue the other files plus its length |
| `QueueStore.StateStore.Enqueue` | src/storage.rs:209-228 | refuses if and only if the bytes would pass the limit, else writes one file; whatever the directory holds the queue stays within its limit; a queue of own names below the top is extended at its end |
| `QueueStore.StateStore.UsedBytes` | src/storage.rs:335-342 | the total size of the pending events |
| `QueueStore.StateStore.PendingPaths` | src/storage.rs:230-238 | the event files, sorted, each once |
| `QueueStore.StateStore.ReadEnvelope` | src/storage.rs:240-245 | the decoded event of an intact file that can be read, else an error |
| `QueueStore.StateStore.Acknowledge` | src/storage.rs:326-333 | removes that file and no other |
| `QueueStore.StateStore.Quarantine` | src/storage.rs:263-279 | moves that file aside and trims what was kept |
| `QueueStore.StateStore.TrimQuarantine` | src/storage.rs:291-314 | removes the oldest surplus files except those that cannot be removed |
| `QueueStore.TrimKeepsNewest` | src/storage.rs:281-314 | trimming keeps the newest names, at most twenty |
| `AgentModel.PlanCycle` | src/scheduler.rs:119-166 | decides change, heartbeat, event and new baseline as the run model does |
| `AgentModel.Agent.CollectOnce` | src/scheduler.rs:111-191 | performs exactly one collection step of the run model; one event is added behind all others or none, and the other files stay; when it succeeds or is refused |
| `AgentModel.Agent.WriteBaseline` | src/scheduler.rs:168-175 | the hash is written first and the inventory only after it is durable |
| `AgentModel.Agent.QueueOneHeartbeat` | src/scheduler.rs:373-390 | performs exactly one heartbeat step |
| `AgentModel.Agent.Restarted` | src/scheduler.rs:27-38 | a restart keeps the queue and the history and takes the bearer token from the configuration, else from the stored credential |
| `AgentModel.Agent.EnrollmentClaim` | src/storage.rs:369-384 | a stored claim is presented again if it is valid, else a new one is stored before it is presented |
| `AgentModel.Agent.EnsureEnrolled` | src/scheduler.rs:321-371 | keeps an existing credential, else succeeds if and only if the server issues a valid one for a valid claim and it is stored |
| `AgentModel.Agent.SendOnce` | src/scheduler.rs:240-292 | the answer that counts: the first one, or after a rejected device credential was replaced the second one, and none if it could not be replaced |
| `AgentModel.Agent.DeliverHead` | src/scheduler.rs:220-309 | the event is sent if and only if it can be read, the answer that counts accepts it and its file can be removed; it is set aside if and only if it cannot be read and can be moved; with exactly the matching step of the run model |
| `AgentModel.Agent.Deliver` | src/scheduler.rs:202-319 | tries the events in order up to the first that cannot be handed over, and no further; which events leave the queue, which are counted, the steps in the history, the claim and the number of discarded credentials, all exactly |
| `AgentModel.Agent.AcceptedAtOnce` | src/scheduler.rs:202-319 | when every queued event is intact and accepted at the first attempt, the queue is drained and every event counted |
| `AgentModel.Agent.RenewedForEveryEvent` | src/scheduler.rs:249-292 | a cycle that delivers any number of events and replaces the credential for each |
| `AgentModel.Agent.CollectCycle` | src/scheduler.rs:111-191 | one cycle from collectors to queue: an identifier is reported removed if and only if a change list is sent, it was stored, every collector ran and returned, none reported it, and it is no package of a user whose hive was not loaded throughout; distinct identifiers keep the snapshots strictly sorted |
| `AgentModel.Agent.FullQueueSpins` | src/scheduler.rs:431-467 | from any reached state of the loop, while an overdue heartbeat does not fit the queue, any number of turns pass within one instant and change nothing |
| `AgentModel.Agent.FilesInSync` | src/scheduler.rs:111-319 | at any time, the replayed events rebuild the inventory file outside the suspects |
| `AgentModel.Agent.EmptyQueueMeansDelivered` | src/scheduler.rs:111-319 | without damage and interruption an empty queue directory means that the server holds the inventory file |
| `RunLoop.Run` | src/scheduler.rs:392-486 | the loop over any sequence of turns computes the specified state and does in each turn what is specified |
| `RunLoop.BackoffFollowsFailures` | src/scheduler.rs:418-484 | in every run the k-th failure in a row is answered after min(2^(k-1), limit) seconds, and a success resets it |
| `RunLoop.RetriesOnSchedule` | src/scheduler.rs:464-484 | a turn with nothing new contacts the server if and only if that pause is over |
| `RunLoop.TurnsOnSchedule` | src/scheduler.rs:431-467 | in every run a turn collects if and only if a whole interval has passed since the last collection ended, else beats if and only if the last heartbeat is an interval old; what a turn queues it delivers at once |
| `RunLoop.WakesForTheFirst` | src/scheduler.rs:432-444 | the loop wakes at the first of the next collection, the next heartbeat and the next retry |
| `RunLoop.SleepsUnlessOverdue` | src/scheduler.rs:431-467 | after any turn that took no time the loop sleeps if and only if no heartbeat is overdue |
| `Collection.SortById` | src/collectors/mod.rs:204 | sorted, same multiset, and the last of equal identifiers stays last |
| `Collection.Registry.StartAll` | src/collectors/mod.rs:130-177 | starts exactly the supported collectors not quarantined and reports the others |
| `Collection.Registry.AwaitAll` | src/collectors/mod.rs:179-202 | gathers the returned records, reports every other ending, quarantines exactly those that hung |
| `Collection.Registry.CollectAll` | src/collectors/mod.rs:120-215 | no errors if and only if every collector ran and returned; the errors are one for each of the others, with its reason, sorted by collector |
| `Collection.Registry.Observe` | src/scheduler.rs:112-137 | the snapshot holds what was collected and, on Windows, exactly the missing packages of users whose hives were not loaded throughout; with every hive loaded nothing else |
| `Collection.RetainUnloaded` | src/scheduler.rs:527-560 | adds exactly the missing packages of users whose hive is not loaded, and overrides nothing |
| `Collection.UnloadedUserPackageMeans` | src/scheduler.rs:527-560 | which records are packages of a user whose hive is not loaded, by category, manager, scope and owner |
| `Collection.SortedIsUnique` | src/collectors/mod.rs:204 | a sorted snapshot without repeated identifiers is strictly sorted |
| `DurableFs.Directory.ReplaceFile` | src/durablefs.rs:61-96 | renames once if any of the attempts works, else changes nothing |
| `DurableFs.Directory.AtomicWrite` | src/durablefs.rs:27-38 | at every moment the target is old or new and nothing else changes; which outcome occurs when |
| `Install.AtomicInstallWithSuffix` | src/updater.rs:793-844 | at every step the target holds the old bytes, or new bytes that passed the self-test, or is absent with the old bytes kept aside; which error occurs when |
| `Install.AtomicInstall` | src/updater.rs:785-844 | what the target holds after the call, with or without an old binary, exactly by what the system did during it; no other file is touched |
| `Install.Preserve` | src/updater.rs:831-836 | the old binary is moved aside or stays |
| `Install.Activate` | src/updater.rs:837-843 | the new binary is moved in, or the old one moved back |
| `Install.ErrorKeepsOldBinary` | src/updater.rs:793-844 | an error leaves the old binary, of a call, if and only if after moving it aside either activation and the last flush work, or no activation does and moving back works |
| `Install.FlushErrorOccurs` | src/updater.rs:843 | a call that returns an error with the new binary at the target and the old one aside |
| `Release.ParseVersionExact` | src/updater.rs:1097-1117 | accepted are exactly the canonical prints of three 64-bit numbers |
| `Release.SignerAndAgentAgree` | scripts/sign-agent-update-manifest-v2.py:38-39 | the agent accepts what the signer accepts if and only if the numbers fit 64 bits |
| `Release.SignerGoesBeyondAgent` | scripts/sign-agent-update-manifest-v2.py:38-39 | a text the signer accepts and the agent refuses |
| `Release.NewerIsStrictOrder` | src/updater.rs:1090-1095 | a strict total order on accepted versions |
| `Release.AgentVerifiesWhatSignerSigns` | scripts/sign-agent-update-manifest-v2.py:56-76 | the agent's message equals the signer's, character for character |
| `Release.MessageInjective` | src/updater.rs:732-767 | equal messages if and only if all protected fields are equal |
| `Release.AcceptedOfferIsNewer` | src/updater.rs:304-368 | an accepted offer is newer than the running version or a rollback signed by the pinned key, for the requested channel and platform, at the address of that release and of its size |
| `Release.OnlySignedIsVerified` | src/updater.rs:657-709 | what is verified has the size and digest of its manifest and a signature of the key over its bytes; version 2 manifests, and those that allow a downgrade, are themselves signed |
| `Release.SignedFor` | scripts/sign-agent-update-manifest-v2.py:79-217 | the script signs for three platforms and two channels, artifacts of up to 128 MiB |
| `Release.SignedIsAccepted` | scripts/sign-agent-update-manifest-v2.py:212-270 | whatever the signing script produces with the pinned key the agent verifies, and takes if and only if the version fits 64 bits and is newer, or differs and allows a downgrade |
| `Release.OnlyReleasedIsAccepted` | src/updater.rs:657-767 | if the key only verifies messages of released manifests, an accepted version 2 manifest agrees with a released one on every protected field, and its size and digest are those of the bytes |
| `Updater.Staging.Stage` | src/updater.rs:769-784 | succeeds if and only if the version is valid and every step works; the artifact and its marker are then there, older artifacts gone, other files untouched |
| `Updater.Staging.Prune` | src/updater.rs:637-655 | removes every other artifact that can be removed and touches nothing else |
| `Updater.ApplyPending` | src/updater.rs:535-592 | at every moment the installed binary is untouched, absent, or the accepted candidate (or, where none was installed, the one kept aside); which result occurs exactly when, what is then installed, and that it was hashed, signed and meant for this machine; a refused marker changes nothing |
| `Updater.AttemptMovesForward` | src/updater.rs:535-592 | one attempt keeps, removes or replaces the binary by a newer one, unless a rollback was signed |
| `Updater.VersionNeverGoesBack` | src/updater.rs:535-592 | over every run the installed version never goes back unless a rollback was signed |
| `Updater.InstalledIsVouchedFor` | src/updater.rs:535-592 | over every run what is installed was there at the start, or had the size and digest of the manifest it came with, a signature of the pinned key over its bytes, and the channel and platform of this machine |
| `Updater.ReapplyRefused` | src/updater.rs:304-368 | the new binary refuses the marker it came from |
| `Updater.RunnerMustNotBeBehind` | src/updater.rs:304-368 | the offer check alone keeps the installed version from going back if and only if the runner is not behind it, or by a single version step |
| `Updater.OlderRunnerMovesBack` | src/updater.rs:535-592 | an attempt by 1.0.0 that puts 1.0.1 in the place of 1.0.2 without a signed rollback |
| `Release.SuccessorIsNext` | src/updater.rs:1090-1095 | nothing lies between a version and its successor over three 64-bit fields |
| `Calendar.CivilStepsByOneDay` | src/health.rs:346-366 | for every day number, one day later is the next Gregorian day |
| `Calendar.CivilEpoch` | src/health.rs:346-366 | day zero is 1970-01-01 |
| `Calendar.CivilIsDateAfter` | src/health.rs:346-366 | the closed form equals counting day by day from the epoch |
| `Calendar.CivilIncreasing` | src/health.rs:346-366 | dates order exactly as day numbers |
| `Calendar.FieldsShow` | src/health.rs:333-343 | for every second: the date so many whole days after the epoch, and hour, minute and second of the time that remains |
| `Calendar.TimestampReads` | src/health.rs:333-343 | with four-digit years the text has twenty characters in the layout of RFC 3339, and its numbers read back are that date and time |
| `Calendar.TimestampOrder` | src/health.rs:333-343 | with four-digit years timestamps sort as text exactly as in time |
| `Calendar.TimestampOrderBound` | src/health.rs:333-343 | that bound is exact to the second |
| `Smbios.FormatUuidInjective` | src/smbios.rs:51-72 | different identifiers print differently |
| `Smbios.FormatUuidShows` | src/smbios.rs:51-72 | the layout of DSP0134: dashes, three numbers stored least significant byte first, then two in order |
| `Smbios.SystemUuid` | src/smbios.rs:16-45 | on any bytes it ends, stays inside the table and computes the specified walk |
| `Smbios.SkipStrings` | src/smbios.rs:33-37 | finds the first end of a string area |
| `Smbios.NextStructure` | src/smbios.rs:33-42 | after a well-formed structure the walk continues exactly at the next |
| `Smbios.SystemUuidOfTable` | src/smbios.rs:16-45 | on any list of well-formed structures: the first type 1 structure of length 24 or more, nothing if its identifier is unset |
| `Smbios.ResultComesFromTable` | src/smbios.rs:16-45 | on any bytes a result is the print of sixteen set bytes of the table |
| `Treemap.Squarify` | web/src/vizModel.ts:54-114 | one tile per value with its share of the area, inside, without overlap; the first row spans the shorter side |
| `Treemap.FillRows` | web/src/vizModel.ts:54-114 | the loop over rows computes the specified layout |
| `Treemap.FindRow` | web/src/vizModel.ts:78-85 | the row length the source chooses |
| `Treemap.PlaceRow` | web/src/vizModel.ts:86-95 | writes the tiles of a row and nothing before it |
| `Treemap.LayoutTiled` | web/src/vizModel.ts:54-114 | the layout tiles its space |
| `Treemap.RestFits` | web/src/vizModel.ts:96-110 | what a row leaves has exactly the area of the remaining values |
| `Treemap.RowIsGreedy` | web/src/vizModel.ts:78-85 | no value of a row made it worse, and one more value would |
| `Treemap.RowSpans` | web/src/vizModel.ts:76-95 | a row spans the shorter side of the space it is placed in, from end to end and equally thick |
| `Treemap.ShorterSideIsBetter` | web/src/vizModel.ts:76-77 | along the shorter side a value alone is never flatter than along the longer one |
| `Treemap.WorstIsWorstAspect` | web/src/vizModel.ts:63-73 | the measure used is the worst aspect ratio among the tiles drawn |
| `Treemap.AreasSumToWhole` | web/src/vizModel.ts:54-114 | tile areas add up to the whole |
| `QrCode.QrPath` | web/src/qrCode.ts:42-61 | the path prints the maximal dark runs in reading order, all of them |
| `QrCode.RunsCoverDark` | web/src/qrCode.ts:42-61 | the rectangles cover exactly the dark modules, each once |
| `QrCode.PathDeterminesRuns` | web/src/qrCode.ts:42-61 | different lists of rectangles print different paths |
| `QrCode.PathDeterminesMatrix` | web/src/qrCode.ts:42-61 | matrices of one size with the same path are equal |
| `QrCode.PathDrawsRuns` | web/src/qrCode.ts:42-61 | a pen that follows the path, by the rules of SVG, draws the outlines of the maximal dark runs |
| `QrCode.QrPixels` | web/src/qrCode.ts:73-97 | every byte of the picture is the one its module or the quiet zone demands |
| `QrCode.PixelOfModule` | web/src/qrCode.ts:73-97 | a module is a square block of opaque pixels, black if it is dark, else white |
| `QrCode.QuietZoneIsWhite` | web/src/qrCode.ts:73-97 | around the modules the picture is white |
| `QrCode.PixelsDetermineMatrix` | web/src/qrCode.ts:73-97 | matrices of one size with the same picture are equal |
| `Csv.FieldRoundTrip` | web/src/vizModel.ts:346-349 | any text is read back from its escaped form |
| `Csv.RoundTrip` | web/src/vizModel.ts:345-353 | the reader gives the table back if and only if no row is without columns |
| `Csv.EndedRoundTrip` | web/src/vizModel.ts:345-353 | for a reader that accepts a final line feed: if and only if, further, the last row is not one empty cell |
| `Csv.EscapedWhenNeeded` | web/src/vizModel.ts:346-349 | a cell is written as it is if and only if it holds no quote, comma or line feed |
| `SilentSso.Tab.ShouldAttempt` | web/src/silentSso.ts:73-84 | attempts exactly from an ordinary page with both flags read as clear |
| `SilentSso.Tab.StartURL` | web/src/silentSso.ts:86-92 | leaves the mark and returns the address of the provider with the safe return target |
| `SilentSso.SafeReturnTo` | web/src/silentSso.ts:61-62 | the result stays on this origin, and is the argument if and only if that does |
| `SilentSso.OrdinaryPageMeans` | web/src/silentSso.ts:73-84 | the addresses an attempt may start from, one by one |
| `SilentSso.ParametersOfQuery` | web/src/silentSso.ts:76-79 | an address with parameters has exactly the names it was made of |
| `SilentSso.DecodesEncoded` | web/src/silentSso.ts:76-79 | a parameter name is recognised however its characters are encoded |
| `SilentSso.Tab.Open` | web/src/main.tsx:269-275 | a page without session decides, and the tab's history grows by that visit |
| `SilentSso.Tab.ClearSilentSsoState` | web/src/silentSso.ts:109-112 | a session found clears what can be cleared |
| `SilentSso.Tab.Logout` | web/src/main.tsx:338-346 | a sign-out clears the storage and then leaves both marks |
| `SilentSso.AttemptsExactly` | web/src/silentSso.ts:73-112 | in every run, with any failures of the storage, a page attempts if and only if automatic login is on, its address is none of those excluded, the flags can be read and no mark is live |
| `SilentSso.OneAttemptPerSession` | web/src/silentSso.ts:73-112 | with working storage, if and only if a session followed the last attempt and the last sign-out |
| `SilentSso.NoAttempt` | web/src/silentSso.ts:40-47 | unreadable storage or the refusal's address never starts an attempt |
| `SilentSso.LostMarkTriesAgain` | web/src/silentSso.ts:49-56 | with unwritable but readable storage, two attempts without a session between |

## Left out

- HTTP, TLS, timers, signals and process handling: sends, clocks, sleeps and the self-test of a candidate binary are parameters.
- Status report, diagnostics and log texts, configuration parsing: single facts without interplay; two collection errors are modelled without the deadline they print.
- JSON: writing and reading an event back is assumed to give the same event.
- SHA-256, ed25519, base64: arbitrary functions; a key or signature that does not decode verifies nothing. The signed message is modelled as characters; its UTF-8 encoding is injective and the same on both sides.
- The run model drops the fields `agent_id`, `schema_version` of an event and `duration_ms` of a snapshot, which nothing here depends on.
- Trimming of white space around the stored hash: the digest is hexadecimal and has none.
- Store operations are on the agent's own files; the check that a path lies in the queue directory is always met by paths from the pending list.
- Damage to the stored credential and claim: they are read back as written, or the claim not at all.
- Temporaries of atomic writes are modelled in `DurableFs.dfy` only; the queue directory of `QueueStore.dfy` has the outcomes of such writes.
- QueueStore.StateStore.Enqueue: that the event goes last is stated for queues whose files all bear names of the agent's own form, and below the top of the sequence; the limit needs a maximum below 2^64 - 1, because the check saturates.
- AgentModel.Agent.CollectOnce: stated below the top of the sequence and for a queue of the agent's own names, because otherwise the new event need not go last and the position in the queue no longer tells which event it is.
- AgentModel.Agent.QueueOneHeartbeat: the same two conditions, for the same reason.
- `TrustedUpdatesDirectory` (links, ownership, bounded reads): operating-system checks; the staging directory is modelled as holding anything at all.
- `read_stream_bounded` and the killing of a hung candidate: the self-test ends with a report or does not.
- Widths of the calendar's intermediate integers: all values fit for every 64-bit number of seconds.
- Treemap.Squarify: over real numbers and positive values, without floating-point rounding; for a zero value the source may divide zero by zero, and a negative one has no area.
- Csv.RoundTrip: cells are the texts that number formatting yields.
- SilentSso.Tab.StartURL: percent-encoding of the return target is an arbitrary function.
- `foldTail`, `treemapTiles`, axis and colour scales, `nearestIndex`, the trigonometric graph layout: easy or floating-point members.
- How a QR matrix is computed: a library outside the repository.
- Identifiers of assets, the collectors themselves, Windows and Linux system interfaces, the web pages and the server.
