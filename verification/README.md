# Backbook: a verified model

Backbook is a small transactional ledger for foreign-exchange trades. A pure state
machine books, confirms, amends, cancels and settles trades; a service turns each
accepted command into one journal frame, appends it, and only then publishes the
new state; a restart scans, truncates and replays the journal.

This project models that program in Dafny, from the bytes of the journal to the
service lock, and proves what the program is for:

- in every reachable state the reservations are exactly what the confirmed trades
  pay, the ledger is exactly what the live versions imply, and each trade's versions
  form one complete chain;
- each command is accepted exactly under a condition on the fields of the state,
  changes exactly the fields that are written out, and is otherwise rejected for its
  first obstacle;
- netting with a cancellation stack is the exact integer net, whatever the order of
  the trades;
- the journal format is a bijection, a torn tail is always recognised, and one
  altered byte is always caught; the checksum is the remainder of a polynomial
  division;
- in every run of commands, failing appends, crashes and restarts the service and
  the disk agree with one history of accepted commands, and a restart rebuilds it;
- concurrent readers see only states of a prefix of the journal and never go back.

`dafny verify dfyconfig.toml` checks everything.

## How it is organised

Code that the program writes as loops and in-place updates is written as methods and
classes, each proved against a function that says what it computes; the theorems are
lemmas about those functions. The layers, bottom up:

| layer | modules |
|---|---|
| values and helpers | `Wrappers`, `Ordering`, `Sums`, `Values`, `Decimals`, `Gf2` |
| text of money and dates | `MoneyText`, `Calendar`, `BusinessDays` |
| domain operations | `Trades`, `Limits`, `Ledger`, `PostingPolicy`, `Settlement`, `StateMachine` |
| state invariant | `Reservations`, `Books`, `Chains`, `Invariants`, `Amendments`, `EndOfDay`, `CloseDates` |
| events and evaluation | `Journal`, `Replay`, `Evaluator`, `Effects`, `Decisions` |
| bytes | `Crc`, `CrcRemainder`, `Wire`, `Codec`, `ByteStreams`, `JournalCodec`, `Requests`, `RequestCodec`, `RequestGuards`, `FowlerNollVo`, `Fingerprint`, `StateExport`, `Layouts` |
| store and service | `Storage`, `Service` |
| whole runs | `Histories`, `Reachable`, `Durability`, `Interleavings` |

Conventions: an ordered container of the program is a set or map with an ascending
traversal (`Ordering.Ascending`); machine integers are bounded subset types, so every
update carries a no-overflow obligation; a fault of the environment (a failed append,
read or truncation) is a parameter of the operation that meets it; `Failure` values
carry the program's error codes and, for limit breaches and version conflicts, their
figures.

The state invariant is `Invariants.Inv`. An accepted history (`Histories.Accepted`) is a
sequence of commands with distinct ids, each accepted in the state that the earlier ones
reach, from a hierarchy on which nothing is reserved. `Durability.World` adds the disk,
the process and the one command that a failed write may have cut.

Two observations about the program follow from the proofs. The check that recovery
makes of stored requests (`validate_canonical_command_request`) tests their shape only:
`Requests.ShapeIsNotMeaning` gives bytes that pass it but are no command's request, and
`RequestGuards.RequestIsCanonicalIff` names the guards that are missing: passing bytes
are a command's request exactly when the dates and terms that the check skips are in
range. And a command answered as failed can still be recovered as committed:
`Durability.FailedAppendCommits` and `Durability.CrashedAppendCommits` show that this
happens exactly when the write had left the whole frame.

## Model

| member | source | states |
|---|---|---|
| `Durability.EveryRunAgrees` | src/service/command_service.cpp:29-215 | Over every sequence of commands, failing appends, crashes inside a command or inside a restart, and restarts (with or without read and truncation faults) from an empty disk, the bytes on disk are the journal of one accepted history plus at most one cut frame, and a running service is exactly what that history determines; it is writable if and only if no frame is cut. |
| `Durability.EveryRestartRecovers` | src/service/command_service.cpp:29-113 | After any run a restart whose reads and truncation work succeeds and yields the snapshot, idempotency index and next sequence of the committed commands, or of those and the one command whose frame was cut. |
| `Durability.FailedAppendCommits` | src/storage/journal_store.cpp:89-113 | A command answered as failed is committed by the next working restart if and only if the failed write had left at least its whole frame. |
| `Durability.CrashedAppendCommits` | src/service/command_service.cpp:201-215 | A command cut short by a crash is committed by the next working restart if and only if its whole frame had been written. |
| `Durability.WholeByLength` | src/storage/journal_store.cpp:176-203 | A cut frame counts as committed exactly when the disk is as long as the journal and that frame together. |
| `Durability.TruncationAgrees` | src/storage/journal_store.cpp:191-199 | A crash between the truncation and the rest of a restart leaves a disk in agreement with the same history: truncation removes a torn tail and nothing else. |
| `Durability.RestartRecovers` | src/storage/journal_store.cpp:176-203 | Any single restart from an agreeing disk either rebuilds precisely the history that recovery finds, or fails and changes neither the disk nor the history. |
| `Durability.DiskRecovers` | src/service/command_service.cpp:37-105 | Recovery of any agreeing disk passes the scan, the request check, the replay and the index, and a cut frame that happens to be whole counts as committed. |
| `Durability.RecoveryExact` | src/service/command_service.cpp:37-112 | Recovery from the journal of any accepted history followed by any torn tail gives the service of that history, and flags the tail exactly when it is non-empty. |
| `Durability.ExtendingAppends` | src/service/command_service.cpp:185-214 | A new command that the domain accepts leads to the service of the history extended by it when the append completes, and otherwise to an unchanged history with a closed store and a prefix of its frame on disk. |
| `Durability.RefusedChangesNothing` | src/service/command_service.cpp:141-173 | A new command that cannot extend the history changes nothing and fails only with an exhausted sequence, a domain rejection, or an end of day too large to count. |
| `Durability.RetryReturnsFirstResult` | src/service/command_service.cpp:128-135 | Retrying an identical envelope returns the result recorded for its first execution and changes nothing, even when the store is closed. |
| `Durability.ReuseIsConflict` | src/service/command_service.cpp:128-139 | Any different envelope under a used command id is a conflict and changes nothing. |
| `Durability.ClosedStoreIsInert` | src/storage/journal_store.cpp:82-93 | After a failed write no command changes the service or the disk, and only replays of earlier results succeed. |
| `Durability.IndexExact` | src/service/command_service.cpp:83-97 | The rebuilt idempotency index has exactly the command ids of the journal, each with its own request bytes and result, so no insertion meets a duplicate. |
| `Durability.NextSequenceExact` | src/service/command_service.cpp:98-104 | The next sequence rebuilt from the journal is one more than the number of commands, or 0 when the 64-bit sequence is used up. |
| `Durability.AcknowledgedIsCommitted` | src/service/command_service.cpp:201-214 | A command answered as new is committed at once, with the result that the journal holds for it. |
| `Durability.DiskKeepsCommitted` | src/service/command_service.cpp:201-214 | The journal of the commands committed by any moment stays on the disk as its beginning after any further steps of any run. |
| `Durability.NoImpossibleReply` | src/service/command_service.cpp:150-181 | In no run does execute answer with a journal or command encoding failure, and it answers with an invariant violation only for an end of day that settles more than 2^32 - 1 versions. |
| `Interleavings.EveryInterleavingBehaves` | src/service/command_service.cpp:115-219 | In every interleaving of the append, index, sequence and publish steps of locked executes with lock-free loads, each loaded snapshot is the state of a prefix of the commands whose frames are on disk at that moment, at most one short; the disk holds those frames and at most part of one failed one; and neither loads nor the disk go back. |
| `Interleavings.LoadIsNearDisk` | src/service/command_service.cpp:217-219 | Scanning the bytes on disk at the moment of a load succeeds, finds at most one command more than the load shows, and replaying the commands before it gives the loaded snapshot. |
| `Interleavings.LoadIsReplay` | src/service/command_service.cpp:217-219 | A loaded snapshot is what replaying that prefix of the durable batches gives. |
| `Interleavings.UninterruptedIsExecute` | src/service/command_service.cpp:115-215 | The four steps of one command run without interruption build the view that execute builds. |
| `Interleavings.MoveKeepsBehaving` | src/service/command_service.cpp:201-212 | Each single step, whoever takes it, keeps the interleaving invariant. |
| `Service.CommandService.Execute` | src/service/command_service.cpp:115-215 | The new snapshot, index, sequence and disk and the reply are those of the service specification, in every branch. |
| `Service.Create` | src/service/command_service.cpp:29-113 | Creation returns the recovered service over its own store and latch, or the first error of a missing store, read, scan, truncation, request check, replay or duplicate id. |
| `Service.CheckRequests` | src/service/command_service.cpp:50-72 | Finds the first stored request that is malformed or whose tag differs from its single event. |
| `Service.BuildIndex` | src/service/command_service.cpp:83-97 | Builds the index of the batches, or none exactly when a command id repeats. |
| `Storage.JournalStore.AppendAndFlush` | src/storage/journal_store.cpp:89-113 | A completed append adds the whole frame; a failed one leaves some prefix and closes the store; a closed store is untouched. |
| `Storage.JournalStore.Truncate` | src/storage/journal_store.cpp:156-174 | Cuts the store to the given size, or closes it, or refuses a size beyond the end. |
| `Storage.RecoverJournal` | src/storage/journal_store.cpp:176-203 | Keeps exactly the validated frames on success and leaves the bytes untouched on any failure. |
| `Evaluator.EvaluationReplays` | src/journal/replay.cpp:21-138 | For every sound state and accepted command the emitted event replays to the same prospective state, the emitted result passes the replay check, and the version grows by at most one. |
| `Evaluator.EvaluationExact` | src/service/command_evaluator.cpp:94-184 | Evaluation accepts exactly the commands that the domain accepts and can count; the only invariant violation is an end of day settling more than 2^32 - 1 versions. |
| `Decisions.AcceptedIff` | src/service/command_evaluator.cpp:94-184 | On a sound state a command is accepted if and only if a condition on plain fields holds: for each of the five commands the addressed version and its state, room at the group, counterparty, netting set and book (for an amendment after its own payment is given back), unused distinct posting ids, closing nets within 64 bits, and version numbers that can grow. |
| `Decisions.RejectionIs` | src/domain/state.cpp:91-418 | The error of a rejected command is that of the first obstacle in the order in which the program looks; a limit error names the node nearest the root without room, and what it required and had left. |
| `Effects.CommandEffect` | src/service/command_evaluator.cpp:94-184 | An accepted command of each kind emits the event with its own arguments in their places, answers with its own ids and version numbers, and has exactly its effect on the state. |
| `Effects.ResponseIsUnique` | src/journal/replay.cpp:71-138 | Replay accepts exactly one response for an accepted command, the one that was given. |
| `Evaluator.EventAdvancesVersion` | src/domain/state.cpp:361-474 | Every accepted event advances the state version by one, except an end of day with nothing to settle, and no event changes a capacity. |
| `Evaluator.EventKeepsInv` | src/domain/state.cpp:91-418 | Each of the five operations keeps the whole state invariant. |
| `Evaluator.SoundStatesPassChecks` | src/service/command_evaluator.cpp:32-46 | Every sound state passes the evaluator's own check: recomputed totals equal the running ones and every reservation is within capacity. |
| `Evaluator.CheckInvariants` | src/service/command_evaluator.cpp:32-46 | The method decides exactly the check of totals and capacities. |
| `Evaluator.CheckCapacities` | src/service/command_evaluator.cpp:38-44 | The loop over raw balances decides whether every capacity is non-negative and every reservation within it. |
| `Evaluator.EvaluateCommand` | src/service/command_evaluator.cpp:94-184 | Evaluation is the event's outcome, checked, with the response computed from the states before and after. |
| `Evaluator.CloseCount` | src/journal/replay.cpp:60-69 | The settled-version count grows by exactly the number of versions that were eligible. |
| `Histories.ReachableIsSound` | src/domain/state.cpp:91-418 | Every state reached by an accepted history satisfies the invariant, has a version no larger than the number of commands, and keeps the defined capacities. |
| `Histories.ReplayReproduces` | src/journal/replay.cpp:140-211 | Replaying the journal of any accepted history succeeds and gives exactly its state. |
| `Histories.BatchAt` | src/service/command_service.cpp:166-173 | Batch i of the journal carries sequence i + 1 and the id, canonical request and event of command i. |
| `Histories.HistoryEncodes` | src/service/command_service.cpp:175-183 | Every batch that the service can write encodes: no record of one command exceeds the payload limit. |
| `Histories.IdsOccurOnce` | src/service/command_service.cpp:128-139 | No two commands of an accepted history share a command id. |
| `Replay.ReplayBatches` | src/journal/replay.cpp:140-211 | The loop computes the fold of the batches from the initial state followed by the final totals check, or the first failure. |
| `Replay.SettledTradeCount` | src/journal/replay.cpp:60-69 | The counting loop returns the number of settled versions. |
| `Replay.FirstFailureStays` | src/journal/replay.cpp:146-196 | Once a prefix of the batches fails to replay, the whole journal fails with the same error. |
| `Reachable.ReservationsAreConserved` | src/domain/state.cpp:61-418 | In every reachable state the balance of the group, a counterparty, a netting set or a book in a currency reserves exactly the sum of what is paid in it by the confirmed versions whose own counterparty, netting set and book are the ones that the node names, between zero and its unchanged capacity. |
| `Reachable.ParentsSumChildren` | src/domain/limits.cpp:213-296 | In every reachable state a parent's reservation is the sum over its defined children. |
| `Reachable.BalancesAreLive` | src/domain/state.cpp:233-350 | In every reachable state the signed balance of each account and currency is the sum of the confirmation postings of the confirmed and settled versions only. |
| `Reachable.AccountBalances` | src/domain/posting_policy.cpp:145-203 | In every reachable state a counterparty's control account holds, per currency, what its live versions pay less what they receive, and a book's payable and receivable accounts hold minus what its live versions pay and what they receive. |
| `Reachable.ReversalsAreExact` | src/domain/posting_policy.cpp:205-234 | In every reachable state each reversing posting mirrors one earlier posting that is not itself a reversal, and no other posting reverses the same one. |
| `Reachable.ChainsAreComplete` | src/domain/trade.cpp:90-134 | In every reachable state a trade stores exactly the versions 1 to its current one, with reciprocal links, one open last version, and the same parties throughout. |
| `Reachable.IndexIsEverConfirmed` | src/domain/state.cpp:169-176 | In every reachable state the confirmation index holds exactly the versions that were confirmed in some earlier state of that history. |
| `Reachable.EveryStepCarries` | src/service/command_service.cpp:150-173 | Every command of an accepted history met its acceptance condition in the state before it and had its own effect; the journal records its event and result. |
| `Reachable.IndexPointsHome` | src/domain/posting_policy.cpp:74-130 | In every reachable state each indexed version points at an entry of its own that posts its confirmation and has the shape a reversal demands, so no reversal can meet a foreign or missing entry. |
| `Reachable.NoDeadBranch` | src/domain/state.cpp:123-418 | No event on a reachable state ever reports a missing confirmation entry, a totals failure, a failed release, a broken amendment or an unexpected posting failure. |
| `Reachable.SettlementsAreNets` | src/domain/state.cpp:389-411 | In every reachable state, for each counterparty, netting set, value date and currency, the stored obligations hold the one incoming or outgoing amount that the settled versions of exactly those parties and that date receive in the currency less what they pay in it, and none when that is zero. |
| `Reachable.ExportsTellStatesApart` | src/journal/fingerprint.cpp:231-296 | Two reachable states with equal canonical exports are equal in full, including the posting-id set and confirmation index that are not exported. |
| `Reachable.JournalIdsAreDistinct` | src/service/command_service.cpp:128-139 | No command id occurs in two batches of the journal of a history. |
| `Invariants.InitialStateIsSound` | src/domain/state.cpp:70-70 | A state over an unreserved hierarchy satisfies the invariant. |
| `Invariants.BookExact` | src/domain/state.cpp:91-121 | On a sound state booking fails only on a known trade id or an exhausted version, and otherwise stores a captured, unlinked version 1 with the given id, book, counterparty, netting set and terms, makes it current, and touches nothing else. |
| `Effects.BookingIs` | src/domain/trade.cpp:28-44 | After a successful booking the version at (id, 1) has the given id, book, counterparty, netting set and terms, is captured without links and is current; nothing else but the state version changes. |
| `Invariants.ConfirmIff` | src/domain/state.cpp:123-178 | On a sound state confirmation succeeds exactly when the current captured version is named, the group and its own counterparty, netting set and book can each take its payment, its four posting ids are distinct and unknown, and the version can advance. |
| `Effects.ConfirmationIs` | src/domain/state.cpp:123-178 | A confirmation appends one entry that debits the counterparty's control account and credits the book's payable account with the payment, debits the book's receivable account and credits control with the receipt, under the four given ids; it indexes the entry, charges the payment to the four nodes of the trade's own ids, and changes nothing else. |
| `Invariants.CancelIff` | src/domain/state.cpp:286-359 | On a sound state cancellation succeeds exactly when the current version is captured with no reversal ids, or confirmed with four distinct unknown ones. |
| `Effects.CancellationIs` | src/domain/state.cpp:286-359 | A cancellation of a confirmed version appends an entry that reverses its confirmation account by account under the four given ids, and gives its payment back at the four nodes of its own ids; of a captured one it only changes the state. |
| `Invariants.ConfirmKeepsInv` | src/domain/state.cpp:123-178 | Confirmation keeps version chains, ledger meaning, reservations, totals and settlements in agreement. |
| `Invariants.CancelKeepsInv` | src/domain/state.cpp:286-359 | Cancellation keeps version chains, ledger meaning, reservations, totals and settlements in agreement. |
| `Invariants.BookKeepsInv` | src/domain/state.cpp:91-121 | Booking keeps the invariant. |
| `Amendments.AmendIff` | src/domain/state.cpp:180-284 | On a sound state amendment succeeds exactly when the current version is confirmed, its number can grow, the replacement has headroom once the old reservation is released, the eight posting ids are distinct and unknown, and the version can advance. |
| `Effects.AmendmentIs` | src/domain/state.cpp:180-284 | An amendment stores the superseded and the replacing version with their links, appends the reversal of the old confirmation and then the new confirmation posting by posting, indexes the latter, and at the four nodes gives the old payment back and charges the new one, in one version step. |
| `Amendments.AmendKeepsInv` | src/domain/state.cpp:180-284 | Amendment keeps the whole invariant although it passes through a state that does not satisfy it. |
| `Amendments.EightIds` | src/domain/state.cpp:437-461 | Checking the second entry against the ids after the first is the same as requiring all eight ids to be distinct and unknown. |
| `EndOfDay.EodIff` | src/domain/state.cpp:361-418 | On a sound state end of day is the identity when no confirmed version has a value date on or before the date, and otherwise fails only if some net has no 64-bit magnitude or the version is exhausted: no release in the loop can fail. |
| `EndOfDay.EodExact` | src/domain/state.cpp:361-418 | End of day settles each confirmed version whose value date is on or before the date and leaves it otherwise unchanged, leaves every other version unchanged, rebuilds the settlements and keeps the invariant; the state stays the same if and only if there was no such version. |
| `Effects.CloseIs` | src/domain/state.cpp:361-418 | Every balance gives back exactly what the versions that settle had reserved there, and the new obligations are the exact receipts less payments of all versions settled by then, for every counterparty, netting set, value date and currency. |
| `Effects.NoneLeftDue` | src/domain/state.cpp:364-376 | After an end of day no version is left confirmed with a value date on or before the date. |
| `EndOfDay.SettleEachSteady` | src/domain/state.cpp:377-395 | The settling loop over distinct confirmed versions succeeds at every iteration and settles exactly those. |
| `EndOfDay.EodComposes` | src/domain/state.cpp:361-418 | End of day at a date and then at a later one equals one run at the later date in everything but the state version. |
| `CloseDates.EodSplits` | src/domain/state.cpp:361-418 | An end of day can be split at any earlier date if and only if the one run succeeds and the version counter has room for the steps of both: an earlier close never overflows where the later one does not. |
| `CloseDates.TotalIsSum` | src/domain/state.cpp:389-411 | Totalling the settled versions in key order gives the sum of what every stored version adds to that counterparty, netting set, value date and currency. |
| `CloseDates.EarlierCloseFits` | src/domain/settlement.cpp:164-186 | On settled states whose stored obligations are their netting, nets after an earlier close are representable whenever those after a later close are. |
| `EndOfDay.EodIsIdempotent` | src/domain/state.cpp:361-376 | A rerun at the same or an earlier date leaves the state identical. |
| `StateMachine.Confirm` | src/domain/state.cpp:123-178 | The step-by-step edit of a state copy gives the specified outcome, with the same error in the same order. |
| `StateMachine.Amend` | src/domain/state.cpp:180-284 | The step-by-step amendment gives the specified outcome, with the same error in the same order. |
| `StateMachine.Cancel` | src/domain/state.cpp:286-359 | The step-by-step cancellation gives the specified outcome, with the same error in the same order. |
| `StateMachine.RunEndOfDay` | src/domain/state.cpp:361-418 | The collecting and settling loops give the specified outcome. |
| `StateMachine.AppendEntry` | src/domain/state.cpp:437-461 | An entry is appended with its ids and totals, or refused before anything changes. |
| `Books.PostingKeepsSound` | src/domain/posting_policy.cpp:145-203 | Posting a confirmation with fresh ids keeps the ledger invariant, in which every entry is an indexed confirmation or the mirror of an earlier one. |
| `Books.ReversingKeepsSound` | src/domain/posting_policy.cpp:205-234 | Appending the mirror of a live version's confirmation keeps the ledger invariant and removes exactly that version from every balance. |
| `Books.NoPostingReversedTwice` | src/domain/posting_policy.cpp:205-234 | Two postings that reverse the same posting are the same posting. |
| `Books.ReversalPointsBack` | src/domain/ledger.cpp:107-136 | A reversal points at a posting of an earlier entry, on the other side of the same account and amount. |
| `Chains.AmendingKeepsChain` | src/domain/trade.cpp:90-134 | Superseding the current version and adding its replacement keeps complete, linked, single-party version chains. |
| `Chains.OnlyCurrentIsOpen` | src/domain/trade.cpp:90-134 | A stored version is superseded if and only if it is not its trade's current one. |
| `Chains.CurrentIsStored` | src/domain/state.cpp:79-88 | Every known trade id has its current version stored under that number. |
| `Reservations.ReleaseNeverFails` | src/domain/limits.cpp:257-296 | In any backed hierarchy the outgoing amount of a confirmed version can be released at all four nodes. |
| `Reservations.ThroughIff` | src/domain/state.cpp:61-66 | A version's payment passes through a balance if and only if the balance is in the currency it pays and its node is the group or names the version's own counterparty, netting set and book. |
| `Reservations.ReserveKeepsBacked` | src/domain/limits.cpp:213-255 | Reserving a version's payment and confirming it together keep reservations equal to what confirmed versions pay. |
| `Reservations.ReleaseKeepsBacked` | src/domain/limits.cpp:257-296 | Releasing a version's payment and closing it together keep reservations equal to what confirmed versions pay. |
| `Reservations.MovingKeepsAggregates` | src/domain/limits.cpp:92-98 | Moving one amount along a root-to-leaf path keeps every parent equal to the sum of its children. |
| `Reservations.BackingDetermines` | src/domain/limits.cpp:213-296 | Capacities and confirmed versions determine the whole hierarchy. |
| `Limits.CreateLimits` | src/domain/limits.cpp:103-138 | A hierarchy is created exactly when no capacity is negative and no node and currency is defined twice, with the given capacities and no reservation; otherwise the error is that of the first defective definition, with its node, currency and amount. |
| `Limits.HeldIs` | src/domain/limits.cpp:103-138 | A created hierarchy holds one balance for the node and currency of each definition, with its amount and nothing reserved, and no other. |
| `Limits.Reserve` | src/domain/limits.cpp:213-255 | Charges all four nodes, or reports the first node from the root without headroom, with what it required and had left, and charges none. |
| `Limits.Release` | src/domain/limits.cpp:257-296 | Releases at all four nodes, or reports the first that does not hold the amount and releases none. |
| `Limits.ReserveMoves` | src/domain/limits.cpp:213-255 | A reservation adds the amount to the group, counterparty, netting set and book of the given ids in its currency and changes no other balance and no capacity. |
| `Limits.ReleaseMoves` | src/domain/limits.cpp:257-296 | A release takes the amount from the same four balances and changes nothing else. |
| `Limits.ReserveRefusal` | src/domain/limits.cpp:224-244 | A refused reservation names the first of the four nodes from the root that is undefined or lacks room, with the amount required and what was left. |
| `Limits.ReleaseRefusal` | src/domain/limits.cpp:268-286 | A refused release names the first of the four nodes from the root that is undefined or holds less than the amount, with the amount required and what is held. |
| `Limits.ReleaseUndoesReserve` | src/domain/limits.cpp:213-296 | Releasing what was just reserved restores the hierarchy exactly. |
| `PostingPolicy.ConfirmationEntryExact` | src/domain/posting_policy.cpp:145-203 | A confirmed version posts exactly the four policy postings, and fails only on a repeated id. |
| `PostingPolicy.ReversalEntryExact` | src/domain/posting_policy.cpp:205-234 | Reversing a confirmation-shaped entry mirrors it posting by posting, and fails only on an id reused in place or repeated. |
| `PostingPolicy.ConfirmationHasShape` | src/domain/posting_policy.cpp:74-130 | Every confirmation the policy builds has the shape that a reversal demands. |
| `PostingPolicy.ShapeIsConfirmationIff` | src/domain/posting_policy.cpp:74-130 | Four postings pass the shape test and name a valid counterparty and book if and only if they are the confirmation of some trade version. |
| `PostingPolicy.MirrorNegates` | src/domain/posting_policy.cpp:205-234 | A mirror negates every account balance of what it mirrors. |
| `PostingPolicy.BuildConfirmationEntry` | src/domain/posting_policy.cpp:145-203 | Postings are built in order up to the first failure and then joined into an entry. |
| `PostingPolicy.BuildReversalEntry` | src/domain/posting_policy.cpp:205-234 | Reversals are built in order up to the first failure and then joined into an entry. |
| `Ledger.CreateEntry` | src/domain/ledger.cpp:141-190 | An entry is made exactly when postings are non-empty, ids are distinct, no running balance overflows and every currency balances. |
| `Ledger.EntryIsNeutral` | src/domain/ledger.cpp:141-190 | Every entry has distinct ids and nets to zero per currency, and adding it to zero totals never overflows. |
| `Ledger.TotalsAreExact` | src/domain/ledger_totals.cpp:73-107 | When no intermediate total overflows, the running total is the exact signed sum. |
| `Ledger.LedgerIsNeutral` | src/domain/ledger_totals.cpp:138-165 | Recomputing the totals of any ledger succeeds and gives zero in every currency. |
| `Ledger.RecomputeLedgerTotals` | src/domain/ledger_totals.cpp:138-165 | The nested loops compute the totals of all entries or report overflow. |
| `Ledger.WithEntry` | src/domain/ledger_totals.cpp:95-107 | The loop adds the postings one by one or reports overflow. |
| `Settlement.AddCashflow` | src/domain/settlement.cpp:32-60 | The stack of unmatched amounts absorbs a cashflow so that its signed value changes by exactly that amount, without any intermediate overflow. |
| `Settlement.TotalMagnitude` | src/domain/settlement.cpp:61-73 | The magnitude is the sum of the unmatched amounts, or overflow exactly when that sum exceeds 2^63 - 1. |
| `Settlement.DeriveBilateralSettlements` | src/domain/settlement.cpp:128-196 | The accumulator map, the cancellation stacks and the sort publish the exact netting of the settled trades, or overflow. |
| `Settlement.SettlementsAreExact` | src/domain/settlement.cpp:128-196 | For every counterparty, netting set, value date and currency the result holds exactly the obligation of the trades' total there, incoming when positive and outgoing when negative, and none when it is zero; a settled trade adds to its own counterparty, netting set and value date what it receives in the currency less what it pays in it. |
| `Settlement.NettingOverflowsIff` | src/domain/settlement.cpp:61-73 | The call fails, with an overflow, if and only if some such total has no 64-bit magnitude. |
| `Settlement.NettingIgnoresOrder` | src/domain/settlement.cpp:164-195 | Permuting the input trades does not change the result. |
| `Settlement.SettlementsAreSorted` | src/domain/settlement.cpp:75-91 | Obligations are ordered strictly by value date, then currency, counterparty and netting set, so no two share them. |
| `Codec.FrameRoundTrip` | src/journal/codec.cpp:946-1020 | Decoding an encoded frame followed by any bytes returns its batch and consumes exactly the frame. |
| `Codec.FrameCanonical` | src/journal/codec.cpp:967-1020 | A decoded frame is byte for byte what the encoder writes for the decoded batch. |
| `Codec.PayloadRoundTrip` | src/journal/codec.cpp:823-944 | Every batch that encodes is decoded from its payload. |
| `Codec.PayloadCanonical` | src/journal/codec.cpp:861-944 | Any payload that decodes is byte for byte what the encoder writes for the decoded batch. |
| `Codec.EventRoundTrip` | src/journal/codec.cpp:463-660 | Every event is decoded from its tag and body. |
| `Codec.EventCanonical` | src/journal/codec.cpp:507-660 | Any tag and body that decode are those of the decoded event, so no event has two encodings. |
| `Codec.ResultRoundTrip` | src/journal/codec.cpp:662-808 | Every result is decoded from its encoding, leaving what follows. |
| `Codec.UnexpectedEndMeansShort` | src/journal/codec.cpp:967-1020 | Decoding reports an unexpected end if and only if the input is physically shorter than the frame that it announces. |
| `Codec.DecisionIsFinal` | src/journal/codec.cpp:967-1020 | A frame or an error once decided does not depend on what follows: only an unexpected end can change when more bytes arrive. |
| `Codec.TornFrameIsShort` | src/journal/codec.cpp:967-996 | Every strict prefix of a frame is reported as an unexpected end. |
| `Codec.AlteredPayloadRejected` | src/journal/codec.cpp:998-1007 | Altering any one payload byte of a frame of any length is reported as a checksum mismatch. |
| `Codec.ScanExact` | src/journal/codec.cpp:1022-1049 | Scanning any frames followed by any torn tail returns exactly those batches, their length, and a truncation flag exactly when the tail is non-empty. |
| `Codec.ScanCanonical` | src/journal/codec.cpp:1022-1049 | Whatever scans is the frames of the returned batches followed by an unread tail. |
| `Codec.RescanAfterTruncation` | src/storage/journal_store.cpp:185-203 | After truncation to the last valid offset the scan returns the same batches and no tail. |
| `Crc.OneByteDetected` | src/journal/codec.cpp:810-821 | Two payloads of equal length that differ in one byte have different checksums. |
| `CrcRemainder.ChecksumIsRemainder` | src/journal/codec.cpp:810-821 | The checksum of any bytes is the complement of the one remainder of their polynomial, shifted by 32 places with 32 ones added to its front, on division over GF(2) by x^32 + x^26 + x^23 + x^22 + x^16 + x^12 + x^11 + x^10 + x^8 + x^7 + x^5 + x^4 + x^2 + x + 1, with the lowest bit of each byte as its highest coefficient. |
| `CrcRemainder.RegisterIsRemainder` | src/journal/codec.cpp:812-819 | From any start, the register holds the remainder of the start followed by the bytes. |
| `CrcRemainder.StepIsTimesX` | src/journal/codec.cpp:815-818 | One step of the register multiplies its polynomial by x modulo the generator. |
| `CrcRemainder.CheckValue` | src/journal/codec.cpp:810-821 | The checksum of the nine digits 123456789 is CBF43926. |
| `Crc.ComputeCrc32` | src/journal/codec.cpp:810-821 | The bit-by-bit loop computes the checksum function. |
| `JournalCodec.EncodeFrame` | src/journal/codec.cpp:946-965 | The writer produces exactly the specified frame, or its error. |
| `JournalCodec.DecodeFrame` | src/journal/codec.cpp:967-1020 | The reader accepts exactly the specified frames, with the specified error otherwise. |
| `JournalCodec.ScanJournal` | src/journal/codec.cpp:1022-1049 | The loop returns the scan of its input. |
| `JournalCodec.FrameConsumes` | src/journal/codec.cpp:967-1020 | Every decoded frame consumes at least 13 bytes, so scanning ends. |
| `JournalCodec.EncodePayload` | src/journal/codec.cpp:823-859 | The writer produces exactly the specified payload, or its error. |
| `JournalCodec.DecodePayload` | src/journal/codec.cpp:861-944 | The reader accepts exactly the specified payloads, with the specified error otherwise. |
| `Layouts.EodFrame` | src/journal/codec.cpp:946-965 | The frame of one concrete batch, byte by byte from the magic to the checksum field. |
| `ByteStreams.Writer.WriteUnsigned` | src/journal/codec.cpp:46-63 | The shift loop appends the little-endian bytes of the value. |
| `ByteStreams.Reader.ReadUnsigned` | src/journal/codec.cpp:111-146 | The loop reads the little-endian value and advances by its width, or reports an unexpected end and stays where it was. |
| `Wire.UnsignedRoundTrip` | src/journal/codec.cpp:46-63 | A written unsigned integer is read back and what follows is left. |
| `Wire.UnsignedCanonical` | src/journal/codec.cpp:111-146 | A read unsigned integer was written as the bytes consumed. |
| `Wire.TermsRoundTrip` | src/journal/codec.cpp:334-383 | Written terms are read back and what follows is left. |
| `Wire.TermsCanonical` | src/journal/codec.cpp:343-383 | Terms that are read were written as the bytes consumed. |
| `Requests.CanonicalInjective` | src/service/command.cpp:313-327 | Different command envelopes have different canonical bytes. |
| `Requests.CanonicalValidates` | src/service/command.cpp:329-379 | The canonical bytes of any envelope pass recovery's shape check and give the command's own tag. |
| `Requests.ValidatedIsCanonicalIff` | src/service/command.cpp:284-379 | Bytes that pass the shape check are some envelope's canonical bytes if and only if their body also decodes as an event body. |
| `RequestGuards.RequestIsCanonicalIff` | src/service/command.cpp:284-379 | Bytes that pass the shape check are some envelope's canonical bytes if and only if the values that it skips are in range: dates, and for booking and amendment positive amounts in two currencies. |
| `RequestGuards.ConfirmAndCancelAreCanonical` | src/service/command.cpp:284-311 | Confirm and cancel requests that pass the shape check are always canonical. |
| `RequestGuards.TermsDecide` | src/service/command.cpp:267-272 | Terms of the right shape decode if and only if the guards of the terms constructor hold on the raw bytes. |
| `Requests.ShapeIsNotMeaning` | src/service/command.cpp:284-311 | The shape check alone does not suffice: nine concrete bytes pass it although no envelope has them. |
| `RequestCodec.CanonicalCommandBytes` | src/service/command.cpp:313-327 | The writer produces exactly the canonical bytes. |
| `RequestCodec.ValidateCanonicalCommandRequest` | src/service/command.cpp:329-379 | The skipping reader accepts exactly the specified shapes, with the specified error otherwise. |
| `Fingerprint.ExportIsInjective` | src/journal/fingerprint.cpp:231-296 | Two sound states whose exports succeed and are equal are the same state. |
| `Fingerprint.ExportAgrees` | src/journal/fingerprint.cpp:231-296 | Equal export bytes of any two states that fit agree on version, current versions, trade list, ledger, totals, limit balances and settlements. |
| `Fingerprint.LedgerDetermines` | src/journal/fingerprint.cpp:231-296 | In sound books the trades and entries determine the posting-id set and the confirmation index. |
| `Fingerprint.TradeTells` | src/journal/fingerprint.cpp:181-191 | No trade encoding is a proper prefix of another, and equal encodings mean equal trades. |
| `Fingerprint.PostingTells` | src/journal/fingerprint.cpp:193-202 | The same for postings whose accounts fit a 32-bit length. |
| `Fingerprint.ObligationTells` | src/journal/fingerprint.cpp:287-294 | The same for settlement obligations. |
| `Fingerprint.SnapshotTells` | src/journal/fingerprint.cpp:274-285 | The same for limit balances. |
| `Fingerprint.LimitKeyOrder` | include/backbook/domain/limits.hpp:59-61 | The member-by-member comparison of limit nodes and currencies is a strict total order, so the export order is determined. |
| `Layouts.LimitsInOrderAre` | src/domain/limits.cpp:298-309 | Limit balances are exported level by level from the group down, each level by counterparty, netting set and book, and then by currency. |
| `Layouts.TradesInOrder` | include/backbook/domain/state.hpp:25-35 | Trade versions are listed by trade id and then by version. |
| `Layouts.SnapshotLayout` | src/journal/fingerprint.cpp:135-150 | A limit balance is written as its level, a flag and id for each name of its node, its currency, capacity and reservation. |
| `Layouts.EmptyExport` | src/journal/fingerprint.cpp:231-296 | The export of a new service over no limits, byte by byte. |
| `StateExport.CanonicalStateBytes` | src/journal/fingerprint.cpp:231-296 | The writing loops produce exactly the specified export, or a size overflow. |
| `StateExport.CheckSizes` | src/journal/fingerprint.cpp:208-227 | The loops decide exactly whether every count and account length fits 32 bits. |
| `StateExport.StateFingerprint` | src/journal/fingerprint.cpp:307-317 | The fingerprint is the hash of the canonical export. |
| `FowlerNollVo.OneByteChangesFingerprint` | src/journal/fingerprint.cpp:298-305 | Altering any one byte of an export of any length changes its hash. |
| `FowlerNollVo.ComputeFnv1a64` | src/journal/fingerprint.cpp:298-305 | The loop computes the hash function modulo 2^64. |
| `FowlerNollVo.HelloHash` | src/journal/fingerprint.cpp:298-305 | The hash of the five letters hello is A430D84680AABD0B. |
| `Ordering.LexLessIff` | include/backbook/domain/id.hpp:35-39 | One identifier precedes another if and only if it runs out or has the smaller character at the first place where they differ. |
| `MoneyText.ParseOfFormat` | src/domain/money.cpp:33-153 | Parsing a formatted amount gives the amount back, for every 64-bit amount and currency. |
| `MoneyText.FormatOfParse` | src/domain/money.cpp:136-153 | A text that parses and writes the whole fraction is the formatted amount, so formatting is the one canonical spelling. |
| `MoneyText.OverflowIff` | src/domain/money.cpp:93-124 | Parsing overflows if and only if the text is a well-formed decimal whose scaled value is outside 64 bits. |
| `MoneyText.Parse` | src/domain/money.cpp:33-134 | A text is rejected as malformed exactly when it spells no valid decimal of the currency; otherwise the outcome is the decimal's exact meaning. |
| `MoneyText.Accumulate` | src/domain/money.cpp:93-124 | The unsigned accumulator never wraps: it holds the scaled value when that is within the limit, and stops otherwise. |
| `MoneyText.Format` | src/domain/money.cpp:136-153 | Padding, point and sign inserted in turn spell the amount with its whole fraction. |
| `MoneyText.WholeUnits` | src/domain/money.cpp:33-134 | A whole number of dollars, yen or dinars parses to 100, 1 or 1000 minor units each. |
| `Calendar.ParseOfDateText` | src/domain/date.cpp:57-122 | The text of every date parses back to it. |
| `Calendar.DateTextOfParse` | src/domain/date.cpp:57-87 | Any text that parses is the text of the date that it gives. |
| `Calendar.DaysAreCivil` | src/domain/date.cpp:89-126 | Every valid civil date is an epoch day in range and converts back to itself. |
| `Calendar.CivilIsValid` | src/domain/date.cpp:89-126 | Every epoch day in range is a valid civil date and converts back to itself. |
| `Calendar.EpochAndEnd` | src/domain/date.cpp:12-15 | Day zero is 1970-01-01 and the last representable day is 9999-12-31. |
| `Calendar.DaysFollowCalendar` | src/domain/date.cpp:89-126 | The day after any date is the next date of the Gregorian calendar, whose month lengths and leap years are written out. |
| `Calendar.FixedDays` | src/domain/date.cpp:12-15 | Day 0 is 1970-01-01, and the first and last days are 0001-01-01 and 9999-12-31. |
| `Calendar.ParseDate` | src/domain/date.cpp:57-87 | Parsing distinguishes malformed text, year zero and impossible days, in that order. |
| `Calendar.WriteDate` | src/domain/date.cpp:106-121 | Overwriting the digits of a template gives the text of the date. |
| `BusinessDays.AdjustModifiedFollowing` | src/domain/business_calendar.cpp:66-102 | Returns the nearest joint business day ahead in the month, else the nearest behind in it, and fails exactly when the month has none. |
| `BusinessDays.CalculateTPlusTwo` | src/domain/business_calendar.cpp:104-126 | Returns the second joint business day after the trade date; fails only when fewer than two remain in the calendar. |
| `BusinessDays.TPlusTwoIsUnique` | src/domain/business_calendar.cpp:104-126 | At most one date can be the second joint business day, and where there is one two such days remain. |
| `BusinessDays.JointIff` | src/domain/business_calendar.cpp:12-64 | A joint business day is a day that is no holiday in either calendar and neither a Saturday nor a Sunday, counted from 1970-01-01. |
| `BusinessDays.CreateHolidayCalendar` | src/domain/business_calendar.cpp:41-52 | A calendar is created exactly when no holiday repeats, and holds the given dates in increasing order. |

## Left out

- HTTP, JSON, the command line, the demo scenario and the web console: wrappers around the modelled core.
- Real file input and output in the file store: streams, `resize_file` and what a flush makes durable. An append leaves some prefix of the frame and then completes or closes the store; truncation is atomic. The file store's size-overflow error is not modelled.
- Memory orders of the shared snapshot: storing and loading it are single steps.
- Allocation failure and exceptions.
- Initial limits that already carry reservations: a history starts from a hierarchy as `LimitHierarchy::create` makes it.
- Error details beyond the code, except the node, required and remaining amounts of a limit error, the versions of a version conflict and the nested error codes; in particular the byte offset of a codec error and the sequence number of a replay error.
- Unsupported currencies, sides, levels, kinds and states outside their enumerations: the datatypes have no such values, so the branches that reject them are absent.
- Counts of settled versions and byte offsets are unbounded integers where the program uses 64-bit counters that no run can exhaust in memory.
- `std::sort`, `std::binary_search` and the iteration order of `std::map` are the ascending order of the keys; `std::sort` of holidays is an insertion sort and membership of a holiday is membership in the sorted list.
- `std::chrono`: dates are epoch days, and the proleptic Gregorian calendar is defined by its month lengths and leap-year rule.
- `Money::checked_add`, `checked_subtract` and `checked_negate`, `Money::from_minor_units`, the limit queries `capacity`, `reserved` and `headroom`, and the display path of a limit node: one-line checks or accessors.
- Tables such as `currency_code`, lifecycle names and error-mapping functions are used as definitions.
- A limit balance of a state lies within its capacity by type, so the capacity half of the evaluator's check passes on every state; `Evaluator.CheckCapacities` decides it on raw balances.
- StateMachine.RunEndOfDay: its loops work on sequences of keys in ascending order rather than on map iterators.
- Interleavings.EveryInterleavingBehaves: restarts are not interleaved with loads, because a restart replaces the service object that the readers hold.
