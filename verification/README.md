# Verified model of the vehicle capacity system

This project models the parts of the distributed vehicle capacity system whose correctness is hardest to see:
the capacity reservation engine with its cross-region saga, the journey lifecycle with its outbox, relays and
consumers, refresh-token sessions, the JWK encoding of public keys, the time windows of a route, and the
dispatch of notifications. `dafny verify dfyconfig.toml` checks the whole project.

## How the model is built

Two forms appear side by side.

* **Classes with methods and loops** follow the service and repository code statement by statement, one call at
  a time: `CapacityService.Service`, `Lifecycle.JourneyService`, `OutboxRelay.Worker`,
  `Delivery.CapacityConsumer`, `Sessions.AuthService`, `Notifications.Notifier`. Their contracts state what a
  call answers and the whole new state, through specification functions.
* **Run models** take every transaction, read, step write, stream append and release call as one atomic event,
  with its outcome as a parameter, and let events of all participants interleave in any order; a crash is an
  event too. Their theorems hold for every finite list of events. `Do` is one event, `Run` a list of them, and
  an event that is not enabled changes nothing.

| file | what it models |
|---|---|
| Tables.dfy, Admission.dfy | reservation rows and WHERE clauses; the checks of one reservation transaction |
| DbRuns.dfy | all interleavings of the statements that change the capacity tables |
| Regions.dfy, Saga.dfy | regional grouping; the saga without interference refines one transaction |
| SagaRuns.dfy, OverlappingAttempts.dfy, QuietSagas.dfy | one saga among everything else, with faults, crashes and recoveries, one after another or overlapping; and left alone |
| AcceptedSagas.dfy | when an accepted saga keeps its slots |
| Bookings.dfy, Answers.dfy | idempotency keys, the cache and its purge, and the journeys booked from the answers; which answers a key gets |
| StrandedSlots.dfy | which journeys free the slots that were reserved for them |
| CapacityService.dfy | the capacity service as an object with methods |
| Lifecycle.dfy, OutboxRelay.dfy, Delivery.dfy | journey status and outbox; relays and stream; release of slots by events |
| Sessions.dfy | refresh tokens and sessions |
| Base64Url.dfy, Bytes.dfy, Jwk.dfy | base64url and the JWK round trip |
| TimeWindows.dfy | route time windows, their booking and their enforcement |
| Notifications.dfy, NotificationRuns.dfy | notification store and dispatch; consumers that poll, crash and reclaim |
| Collections.dfy, Wrappers.dfy | small facts about collections; Option and Result |

Time counts nanoseconds and slots are reals, since vehicle weights are multiples of one half. The priority of a
reservation is not a column of the table: the model keeps it in the row so that the emergency buffer can be stated,
and no statement reads it.

## What the proofs found

* **Admission and repeated segments.** The check sums the other rows only, not the request's own windows. It
  protects the capacity of every network exactly for requests whose own load nowhere exceeds one vehicle's weight
  plus the headroom of its priority (`Admission.CapacityIsKeptExactly`); for emergency vehicles and for the emergency
  buffer this means windows that are disjoint on each segment. A route keeps both bounds exactly when it re-enters no
  segment within ten minutes (`TimeWindows.RouteKeepsBoundExactly`).
* **Enforcement and repeated segments.** The journey service stores only the first window of a repeated segment, so
  the planned traversal is authorised throughout, whatever other journeys are active, exactly when no later visit ends
  more than five minutes after the end of the first (`TimeWindows.AuthorisedExactly`).
* **Answers per key.** Two overlapping attempts with one key can be told different things: "failed" first-hand and
  "reserved" from the cache (`Bookings.FailureToldDespiteReservation`). What is told and what is cached differ exactly
  when an attempt gives the failure it found, or the result of its saga, while the cache holds another answer
  (`Answers.ToldAndCachedDifferExactly`); while an entry lives, all answers for its key are the entry's exactly when no
  attempt overrules it in this way (`Answers.LiveEntryIsTheAnswerExactly`). A further reservation for a key with a
  live entry arises exactly from an attempt that had missed the cache, stands before its saga and finds the key
  without one (`Answers.FurtherReservationExactly`).
* **Expired entries.** An expired cache entry no longer answers, but until a purge removes it every attempt of its key
  that has room ends with an internal error (`Answers.ExpiredEntryBlocksExactly`).
* **Saga recovery.** A recovery can free the rows of a saga that answers 201, however many regions it spans: one that
  overlaps the saga (`AcceptedSagas.ConcurrentRecoveryUndoesAcceptedSaga`), one that follows when both final writes
  were lost (`AcceptedSagas.LostMarksUndoAcceptedSaga`), and one by an attempt that missed the cache before the reply
  was cached and looks for the saga afterwards, when only the mark was lost
  (`AcceptedSagas.LateLookupUndoesAcceptedSaga`). An accepted saga that holds its rows keeps them, short of releases by
  others, exactly when every recovery under way has made all its calls and no other can begin: the saga's record is
  no longer PENDING or records no step, or its reply is cached and no attempt that missed the cache before is still to
  look for the saga (`AcceptedSagas.AcceptedKeepsRowsExactly`). After a failure, nothing stays active exactly when a
  release call succeeded or no region had committed (`SagaRuns.NotAcceptedLeavesNothing`).
* **Slots without a journey.** The journey service makes a new journey id for each call and consumers release by
  journey id. When a call is told its reservation and its journey is not created, its slots stay reserved exactly until
  an orphan pass or a release of the reservation id (`StrandedSlots.FailedBookingStrandsSlots`). A retry with the
  same key is told the same reservation and books it under a new journey id, so the end of that journey frees none of
  its slots (`StrandedSlots.EndingFreesExactly`, `StrandedSlots.RetryBooksForeignSlots`).
* **Retry after compensation.** The comments in capacity-service/internal/service/saga_coordinator.go:23-24 and
  124-141 promise a fresh saga after a compensated or recovered one. The schema makes the idempotency key unique among
  sagas (capacity-service/migrations/006_create_reservation_sagas.sql:32) and the coordinator handles no conflict
  there, so the insert of the new record fails and the call ends with an internal error, also after a saga marked FAILED
  and after one older than 24 hours. `CapacityService.Service` takes the unique index as a parameter, and
  `CapacityService.RetryIsLikeOneTransaction` says what happens with it and without it.
* **Reported segment.** The saga reports on every network the failed segment that the single transaction reports
  exactly when the sorted list of segments never returns to an earlier region (`Saga.ReportsAgreeExactly`). Prefixed
  ids have that property (`Saga.SameFailedSegment`); legacy ids need not (`Saga.LegacyIdsReportAnotherSegment`).
* **Old sagas.** A saga older than 24 hours is neither replayed nor recovered, so no retry frees what a crash
  left of it (`CapacityService.KnownSagaKeyExactly`).
* **Lost notifications.** The consumer takes every insert error for a duplicate and acknowledges. Acknowledged
  messages, and those acknowledged next, are sure of their notifications exactly as long as the store refuses no new
  event of a known type; refusals of duplicates and unknown types do no harm
  (`NotificationRuns.AcknowledgedIsStoredExactly`, `NotificationRuns.StoreErrorLosesNotification`).
* **JWK.** The round trip fails exactly for negative moduli and for exponents that are zero or negative, but for the
  smallest 64-bit integer, whose magnitude wraps back to it (`Jwk.KeyRoundTrip`).

## Assumptions

Generated ids and tokens are fresh. Transactions are serialisable. Outbox rows are ordered by commit. In the run
models of the saga, attempts with one key follow one another unless a lemma says otherwise. StrandedSlots.dfy takes
from `Delivery.NoReleaseOfLiveJourney` that consumers release the slots of existing journeys only.

## Model

| member | source | states |
|---|---|---|
| Tables.OverlapMeansSharing | capacity-service/internal/repository/reservation_repo.go:40-46 | for windows that are not empty, the clause holds iff the two windows have an instant of one segment in common |
| Tables.OverlapSumDominatesLoad | capacity-service/internal/repository/reservation_repo.go:40-46 | the sum of rows overlapping a window is at least the load at each instant of the window, and the normal-priority load is part of it |
| Tables.ReleasesAreIdempotentAndCommute | capacity-service/internal/repository/reservation_repo.go:107-212 | releasing twice by one clause is releasing once; two releases by any clauses commute |
| Tables.SumDependsOnActiveRows | capacity-service/internal/repository/reservation_repo.go:40-46 | tables with the same multiset of active rows have the same sum for every clause |
| Admission.EffectiveCapacity | capacity-service/internal/service/reservation_service.go:942-957 | max priority sees the full capacity; normal priority sees max(0, capacity - 1) |
| Admission.WeightsOfVehicles | capacity-service/internal/model/vehicle.go:13-30 | a car weighs one slot and two motorcycles, a truck three slots and two vans |
| Admission.FindActiveOverlap | capacity-service/internal/repository/closure_repo.go:24-68 | finds a closure exactly when an active one overlaps the window, and then one that starts earliest |
| Admission.ClosesAtSomeInstant | capacity-service/internal/repository/closure_repo.go:38-46 | the clause of the closure query holds iff the closure is in force at some instant of the window |
| Admission.ClosureCheckMeansOpen | capacity-service/internal/repository/closure_repo.go:24-68 | the query finds nothing iff no instant of the window is closed, and otherwise a closure in force there that starts earliest |
| Admission.AdmittedExactly | capacity-service/internal/service/reservation_service.go:251-352 | a request is admitted iff each window is valid, on a known segment, open at all its instants, and what shares an instant with it leaves the request's weight of the usable capacity |
| Admission.AloneIsAdmitted | capacity-service/internal/service/reservation_service.go:317-351 | where nobody shares an instant with its windows, a request on open known segments is refused iff its weight exceeds a usable capacity |
| Admission.FailureIsEarliestAndTrue | capacity-service/internal/service/reservation_service.go:251-352 | the reported failure is that of the first window that is not admissible; its reason, closure and available slots are true instant by instant |
| Admission.AdmissionBound | capacity-service/internal/service/reservation_service.go:317-351 | after admission the load at an instant covered k times by the request is at most effective capacity plus (k-1) times its slots |
| Admission.CapacityIsKeptExactly | capacity-service/internal/service/reservation_service.go:251-400 | a request keeps every network within capacity at every instant iff one of its windows is invalid or its own load fits one weight plus headroom |
| Admission.BufferIsKeptExactly | capacity-service/internal/service/reservation_service.go:328-351 | a request keeps the emergency slot free of normal load on every network iff it is of max priority, invalid, or its own load never exceeds one weight |
| Admission.FitsExactlyWhenDisjoint | capacity-service/internal/service/reservation_service.go:251-351 | the condition on the own load without headroom means that the windows are disjoint on each segment |
| DbRuns.BoundHoldsInEveryRun | capacity-service/internal/service/reservation_service.go:187-462 | over every interleaving of reserves, saga sub-transactions, releases, cleanups, closures, registrations and changes of capacity that leave room for what is booked, the load at every instant stays within the maximum, normal load within max(0, maximum - 1), and active closures of a segment stay disjoint |
| DbRuns.UpdateKeepsBoundExactly | capacity-service/internal/repository/segment_repo.go:214-236 | setting a capacity keeps the maximum, respectively the emergency slot, at every instant iff what is booked when each active window starts fits into it |
| DbRuns.ClosureIsCreatedExactly | capacity-service/internal/service/closure_service.go:32-110 | a closure is added iff its input is in order, its duration one minute to seven days, its segment known and none of its instants closed already |
| DbRuns.RegistrationAddsExactly | capacity-service/internal/service/reservation_service.go:672-739 | a registration adds its unknown ids with the default capacity iff no id is empty and the default is positive, and changes nothing else |
| DbRuns.Register | capacity-service/internal/repository/segment_repo.go:194-210 | registration adds exactly the missing ids with the default capacity and changes no existing segment |
| DbRuns.RowsAreNeverLost | capacity-service/internal/repository/reservation_repo.go:67-212 | in every run rows only go from active to released; none is lost or otherwise changed |
| DbRuns.SlotsAreConserved | capacity-service/internal/repository/reservation_repo.go:67-212 | after every run, active plus released slots are the slots of the start plus those of the admitted reservations |
| DbRuns.NoRowOverlapsAnEarlierClosure | capacity-service/internal/service/closure_service.go:51-78 | in every run, no instant of a row inserted after a closure committed lies in the closure |
| DbRuns.OrphanPassBoundsLeaks | capacity-service/internal/service/cleanup_service.go:102-119 | after an orphan pass no active row has a window that ended before the threshold; rows with younger windows are untouched |
| Regions.RegionOfPrefix | capacity-service/internal/service/saga_coordinator.go:47-69 | three prefixes of three characters name America, nine Asia and the Pacific, and every other id lies in Europe |
| Regions.GroupByRegion | capacity-service/internal/service/saga_coordinator.go:74-86 | the loop yields for each region touched its windows in request order, and the regions in name order |
| Regions.SortBySegmentSorts | capacity-service/internal/service/reservation_service.go:116-120 | the request is sorted by segment id, as a permutation |
| Saga.CompensateIsOneRelease | capacity-service/internal/service/saga_coordinator.go:425-447 | one release call per recorded step with the shared id amounts to one release, or none without steps |
| Saga.ForwardIsOnePass | capacity-service/internal/service/saga_coordinator.go:161-247 | regional transactions in order report what one pass over all their windows reports, and insert the same rows |
| Saga.GroupsPartitionTheRequest | capacity-service/internal/service/saga_coordinator.go:74-86 | whatever assigns regions, the regional groups partition the request and share no segment |
| Saga.SagaRefinesTransaction | capacity-service/internal/service/saga_coordinator.go:161-281 | in isolation the saga accepts iff one transaction would, then leaves the same multiset of active rows, and on rejection the active rows of before |
| Saga.CoordinatorRefinesTransaction | capacity-service/internal/service/saga_coordinator.go:49-86 | the same for the groups that the coordinator makes from region prefixes |
| Saga.SameFailedSegment | capacity-service/internal/service/saga_coordinator.go:49-86 | with distinct ids that carry a coordinate prefix, the saga reports the failed segment that the single transaction reports |
| Saga.OrderIsKeptExactly | capacity-service/internal/service/saga_coordinator.go:74-86 | the regional groups in order are the sorted request itself iff its regions ascend |
| Saga.ReportsAgreeExactly | capacity-service/internal/service/saga_coordinator.go:74-86 | for a sorted request with distinct ids and valid windows, saga and single transaction report the same failure on every network iff the list never returns to an earlier region |
| Saga.LegacyIdsReportAnotherSegment | capacity-service/internal/service/saga_coordinator.go:59-68 | for any "US-" id next to an "eu_" id, any weight and priority, the two reports differ |
| SagaRuns.RunKeepsInv | capacity-service/internal/service/saga_coordinator.go:146-247 | in every run the saga's rows are those of its committed regions, and saga row, coordinator and recovery agree as far as writes got through |
| QuietSagas.QuietSagaIsExecute | capacity-service/internal/service/saga_coordinator.go:146-281 | the run model and the saga without interference agree: a coordinator left alone whose writes and calls get through ends with the same tables, answer and recorded regions, marked and cached |
| QuietSagas.EachRegionIsReleased | capacity-service/internal/service/saga_coordinator.go:193-235 | after a failure or an error the coordinator makes exactly one release call per reserved region, whatever their outcomes, and the rows are free iff one succeeded |
| QuietSagas.RecoveryRunsThrough | capacity-service/internal/service/saga_coordinator.go:413-447 | an attempt that finds the saga PENDING makes one release call per recorded step, which frees the rows iff one succeeds, and marks the saga COMPENSATED if its write gets through |
| SagaRuns.AcceptedIsComplete | capacity-service/internal/service/saga_coordinator.go:249-281 | a saga that answered 201 has exactly one row per requested window; if nobody else released one, all are active iff no recovery released any, and always if it is marked or cached |
| SagaRuns.NotAcceptedLeavesNothing | capacity-service/internal/service/saga_coordinator.go:193-235 | a saga that answered failed or error leaves no active row iff a release call succeeded or no region had committed, short of releases by others |
| OverlappingAttempts.OtherReservationsAreUntouched | capacity-service/internal/service/saga_coordinator.go:413-447 | in no run does an event of the coordinator or of another attempt with the key, overlapping or not, change a row of another reservation |
| OverlappingAttempts.RecoveryFreesEverything | capacity-service/internal/service/saga_coordinator.go:132-144 | after a crash anywhere, whatever other attempts are doing, with one recorded step and one successful release call, no row of the saga is or ever becomes active, committed but unrecorded regions included |
| SagaRuns.UnrecordedRowsLieInOneRegion | capacity-service/internal/service/saga_coordinator.go:238-247 | unless a step write was lost at most one region is committed beyond the recorded steps; with none recorded all rows lie in the first region |
| AcceptedSagas.AcceptedKeepsRowsExactly | capacity-service/internal/service/saga_coordinator.go:104-144 | with any number of regions and of overlapping attempts, which read the cache before the saga: an accepted saga with all rows active keeps them in every continuation iff all recoveries under way are spent and the saga is not pending, without recorded steps, or cached with no attempt left that missed the cache |
| AcceptedSagas.SerialAcceptedKeepsRowsExactly | capacity-service/internal/service/saga_coordinator.go:249-281 | when attempts follow one another, an accepted saga keeps its rows in every continuation iff its reply is cached, its row is no longer PENDING or no step is recorded |
| AcceptedSagas.SagaKeepsBounds | capacity-service/internal/service/saga_coordinator.go:161-281 | in every run of a saga among others, with faults, crashes and recoveries, the load stays within both bounds if the own load of each regional transaction and of every other request fits |
| AcceptedSagas.ConcurrentRecoveryUndoesAcceptedSaga | capacity-service/internal/service/saga_coordinator.go:142-144 | for every saga of two or more regions with room, an overlapping recovery can free all rows of a saga that ends accepted, marked and cached |
| AcceptedSagas.LateLookupUndoesAcceptedSaga | capacity-service/internal/service/reservation_service.go:122-158 | for every saga with room, of any number of regions: although its reply is cached, an attempt that had missed the cache finds it pending when the mark was lost, and frees all its rows |
| AcceptedSagas.LostMarksUndoAcceptedSaga | capacity-service/internal/service/saga_coordinator.go:249-268 | for every saga with room, of any number of regions, when both final writes are lost a later attempt frees all rows of an accepted saga |
| Bookings.AtMostOncePerDay | capacity-service/internal/service/reservation_service.go:212-440 | over every interleaving, two single-region commits of one key have different ids and lie more than 24 hours apart, and each has exactly one row per window |
| Bookings.RowsComeFromCommitsOrSagas | capacity-service/internal/service/reservation_service.go:378-400 | every id with rows belongs to a recorded commit or to a saga |
| Bookings.SixTransactionsAtMost | capacity-service/internal/service/reservation_service.go:160-181 | a transaction restarts five times at most; the sixth request to restart ends the attempt with an error |
| Bookings.PathsFollowRegions | capacity-service/internal/service/reservation_service.go:138-158 | in every run, what a single-region transaction commits lies in one region, and an attempt that runs a saga asks for several |
| Bookings.EntryLastsUntilExpiry | capacity-service/internal/repository/idempotency_repo.go:71-170 | whatever happens, a cache entry is unchanged until its expiry |
| Bookings.ToldReservationsExist | capacity-service/internal/service/reservation_service.go:798-818 | a reservation id told for a key was generated for that key and for the journey id that the answer names, and unless it is a saga's its committed rows exist |
| Bookings.FailureToldDespiteReservation | capacity-service/internal/service/reservation_service.go:355-376 | for any two attempts of one key, with any requests, around a table change that makes room, a run tells one "failed" and the other "reserved", and the cache keeps the latter |
| Answers.FreshCallReserves | capacity-service/internal/service/reservation_service.go:122-462 | a call with a new key, in one region and with room, inserts its rows, is told its reservation, and caches it for 24 hours; any other call of the key is then told the same |
| Answers.FreshCallRunsSaga | capacity-service/internal/service/saga_coordinator.go:104-281 | a call with a new key across regions starts one saga under its own id, and the answer of the saga is told and cached |
| Answers.CommittedSagaIsReplayed | capacity-service/internal/service/saga_coordinator.go:111-122 | an attempt that finds its saga COMMITTED is told what the cache validly holds, or gets an error |
| Answers.ErrorsEndTheCall | capacity-service/internal/service/reservation_service.go:187-462 | a failed lookup or an unconfirmed transaction ends the call with an error; the rows and the entry are there iff it had committed all the same |
| Answers.JourneyIsBookedAsTold | journey-service/internal/service/journey_service.go:374-502 | the journey of a call is approved with the reservation it was told, or rejected without one, unless its key or id is known |
| Answers.ToldAndCachedDifferExactly | capacity-service/internal/service/reservation_service.go:355-376 | for each answer told: it differs from the cached one iff the attempt gave its own answer, a failure or the end of a saga, while the cache held another; and nothing is cached iff that attempt found nothing there and its write was lost |
| Answers.LiveEntryIsTheAnswerExactly | capacity-service/internal/service/reservation_service.go:355-376 | over any run in which a cache entry lives, every answer told for the key is the entry's iff no attempt overruled it |
| Answers.ExpiredEntryBlocksExactly | capacity-service/internal/repository/idempotency_repo.go:149-170 | an attempt with room commits and is told its reservation iff no entry is left, expired or not; with an expired one it ends in an error; after a purge it commits iff the entry had expired before the purge |
| Answers.FurtherReservationExactly | capacity-service/internal/service/saga_coordinator.go:104-160 | while an entry lives no transaction commits for its key, and a further reservation id is made for it in some continuation iff the key has no saga and an attempt that had missed the cache stands before its saga |
| Answers.OneSagaPerKey | capacity-service/migrations/006_create_reservation_sagas.sql:32 | in every run a key gets at most one saga, however many attempts there are and however far apart |
| Answers.BookingsKeepBounds | capacity-service/internal/service/reservation_service.go:187-462 | in every run of attempts, sagas, purges and table steps, the load stays within both bounds if the own load of every request fits |
| Bookings.NoSharedReservation | journey-service/internal/repository/journey_repo.go:100-126 | in every run no two approved journeys carry one reservation id |
| StrandedSlots.EndingFreesExactly | capacity-service/internal/event/consumer.go:187-205 | in every run, the end of an approved journey frees the rows of the reservation it carries iff that was made for this very journey id or holds none; otherwise it frees no row of it |
| StrandedSlots.RetryBooksForeignSlots | journey-service/internal/service/journey_service.go:334-372 | whenever a call was told a reservation and did not create its journey, a retry of the key with a live entry books that reservation under its own journey id, whose end changes no row of it |
| StrandedSlots.StrandedRowStaysExactly | capacity-service/internal/service/cleanup_service.go:102-119 | a row whose journey is not created stays active iff no orphan pass after its window's end and no release of its reservation id runs |
| StrandedSlots.FailedBookingStrandsSlots | journey-service/internal/service/journey_service.go:495-502 | after the creation of a journey failed for a told reservation, whatever retries follow, each of its rows stays active iff no orphan pass after its window's end and no release of the reservation id runs |
| CapacityService.Service.ReleaseWhere | capacity-service/internal/repository/reservation_repo.go:107-159 | exactly the matching active rows become released, and the affected windows are theirs in order |
| CapacityService.Service.ReleaseByReservationID | capacity-service/internal/repository/reservation_repo.go:319-361 | the same by reservation id |
| CapacityService.Service.ReleaseOrphans | capacity-service/internal/repository/reservation_repo.go:163-212 | the same for windows that ended before now minus the threshold |
| CapacityService.Service.DeleteExpired | capacity-service/internal/repository/idempotency_repo.go:149-170 | removes exactly the entries whose expiry has passed and counts them |
| CapacityService.Service.FindFailure | capacity-service/internal/service/reservation_service.go:251-352 | the check loop finds the failure of the first failing window, or none |
| CapacityService.Service.DoReserveTx | capacity-service/internal/service/reservation_service.go:187-462 | answer, rows and cache in each case: replay, failure recorded, expired entry in the way and rolled back, commit |
| CapacityService.Service.DoReserveSegmentsTx | capacity-service/internal/service/saga_coordinator.go:292-411 | reports the first failure and changes nothing, or inserts one row per window |
| CapacityService.Service.CompensateSteps | capacity-service/internal/service/saga_coordinator.go:425-447 | the rows of the saga are released iff one of the release calls got through |
| CapacityService.Service.ForwardRegions | capacity-service/internal/service/saga_coordinator.go:161-247 | the loop over regions stops at the first failure with the tables, steps and failure of the saga model |
| CapacityService.Service.RunSaga | capacity-service/internal/service/saga_coordinator.go:146-281 | tables, answer, cache entry and final saga row of a saga with a new key |
| CapacityService.SagaEndsAsItAnswers | capacity-service/internal/service/saga_coordinator.go:193-281 | the saga ends COMMITTED and answers its reservation iff every region went through, else COMPENSATED with the failure |
| CapacityService.Service.CompensateSaga | capacity-service/internal/service/saga_coordinator.go:415-421 | the rows of the recorded reservation id are released iff one release call got through, and the saga is marked compensated |
| CapacityService.Service.ExecuteSaga | capacity-service/internal/service/saga_coordinator.go:90-282 | the whole outcome: a fresh saga for a new key; replay of a committed one; otherwise recovery of a pending one, then a fresh saga, or an internal error where the key is unique among sagas |
| CapacityService.RetryIsLikeOneTransaction | capacity-service/internal/service/saga_coordinator.go:124-141 | an attempt after a compensated, failed, recovered or old saga is like one transaction over the recovered tables iff the schema does not make the key unique; there it ends with an internal error |
| CapacityService.KnownSagaKeyExactly | capacity-service/internal/repository/saga_repo.go:76-84 | where the key is unique among sagas, a further call with it is answered iff the cache holds the answer, and frees rows iff it finds none and the saga is pending, younger than 24 hours and has something to free |
| CapacityService.Service.Reserve | capacity-service/internal/service/reservation_service.go:85-182 | the whole outcome: a bad request iff the journey id, key, list of windows or a segment id is empty; replay of a valid entry; else one transaction or, across regions, the saga, for the sorted request |
| CapacityService.NewKeyIsLikeOneTransaction | capacity-service/internal/service/reservation_service.go:116-158 | with a new key, in one region or several, a request is accepted iff one transaction over it would be, leaves the same multiset of active rows, and its answer is cached |
| CapacityService.NewKeyKeepsBounds | capacity-service/internal/service/reservation_service.go:328-351 | such a call keeps capacity and the emergency buffer at every instant, through a saga too, if the request's own load fits |
| CapacityService.TransactionIsRunOfAttempt | capacity-service/internal/service/reservation_service.go:187-462 | the outcome of the transaction method is that of the attempt's events in the run model when nothing interrupts them |
| CapacityService.Service.CreateClosure | capacity-service/internal/service/closure_service.go:32-110 | adds the closure iff the input is valid, the segment known and no active closure overlaps |
| CapacityService.Service.RegisterSegments | capacity-service/internal/service/reservation_service.go:672-739 | registers all ids or none, each new id with the default capacity, and counts distinct ids |
| Lifecycle.HistoriesAreLegalAndPublished | journey-service/internal/repository/journey_repo.go:821-916 | with stale reads and a check of the version only, every journey has a designed history of one to three versions, and its outbox events are exactly that history in order |
| Lifecycle.EndedIsForever | journey-service/internal/service/journey_service.go:630-890 | a cancelled, completed, expired or rejected journey never changes again in any run |
| Lifecycle.ReleaseEventIsLast | journey-service/internal/repository/journey_repo.go:857-886 | no event of a journey follows its release event, so at most one is enqueued |
| Lifecycle.OneLiveJourneyPerDriver | journey-service/migrations/001_create_schema.sql:34-36 | in every run, with stale reads and any interleaving, no driver has two approved or active journeys and no two journeys share a key |
| Lifecycle.MovesAreByDesign | journey-service/internal/service/journey_service.go:630-890 | in every run, each version after the first goes back to a read by a permitted operation: ACTIVE only by the own driver from departure within the grace, COMPLETED only by the own driver, CANCELLED by the own driver in time or by an admin, EXPIRED thirty minutes after departure |
| Lifecycle.ExpiryPassIsExact | journey-service/internal/service/journey_service.go:1031-1076 | a pass over stale rows expires exactly the journeys whose current version was read, by one event each |
| Lifecycle.JourneyService.CreateJourney | journey-service/internal/repository/journey_repo.go:72-192 | a new journey gets its row and its event together; a conflict iff its id or key is known or it is approved and its driver has a live journey |
| Lifecycle.JourneyService.UpdateStatus | journey-service/internal/repository/journey_repo.go:821-916 | takes effect with its event iff the version read is current |
| Lifecycle.JourneyService.Transition | journey-service/internal/service/journey_service.go:630-890 | succeeds iff the design permits a move by this kind, caller and time and the row read is current, and then adds just the status of the design and its event; not found iff unknown or another driver's; conflict iff permitted but stale |
| Lifecycle.TransitionIsRun | journey-service/internal/service/journey_service.go:630-890 | the effect of the method is that of the read and write events of the run model when nothing separates them |
| Lifecycle.JourneyService.ExpireJourneys | journey-service/internal/service/journey_service.go:1031-1076 | the loop applies the updates in order and skips conflicts |
| OutboxRelay.FirstCopiesFollowTheOutbox | journey-service/internal/event/outbox_relay.go:61-98 | for any number of relays, lost replies, failed marks and crashes, published rows are in the stream and first copies appear in outbox order |
| OutboxRelay.Worker.RelayBatch | journey-service/internal/event/outbox_relay.go:61-98 | adds rows up to the first failure or the end of the batch and marks exactly the successful prefix |
| OutboxRelay.BatchIsRun | journey-service/internal/event/outbox_relay.go:61-98 | what the batch loop leaves is what its fetch, add and mark events leave, one by one |
| OutboxRelay.RelayCatchesUp | journey-service/internal/event/outbox_relay.go:61-98 | after a crash in any state, an undisturbed batch publishes the oldest hundred unpublished rows in order, and so all of them if there are no more |
| Delivery.QuietEndFreesSlots | capacity-service/internal/event/consumer.go:157-205 | from end to end: when nothing fails, any permitted end of a journey frees all its slots through outbox, relay, stream and consumer |
| Delivery.RunKeepsInboxes | capacity-service/internal/event/consumer.go:75-115 | in every run no stream entry is in the hands of two consumers, or twice in the hands of one |
| Delivery.DeliverExactly | capacity-service/internal/event/consumer.go:88-114 | a consumer that holds nothing reads the next entries, ten at most; a busy one reads none; a crash forgets what is held |
| Delivery.GivesUpAfterThree | capacity-service/internal/event/consumer.go:116-145 | an entry whose releases fail is tried three times and then given up for the next |
| Delivery.NoReleaseOfLiveJourney | capacity-service/internal/event/consumer.go:157-205 | in every run a row that a consumer changes belongs to a journey whose committed status is cancelled, completed or expired |
| Delivery.LiveJourneyKeepsItsSlots | capacity-service/internal/event/consumer.go:157-205 | a row that the capacity service itself spares is unchanged at the end of any run at which its journey has not ended |
| Delivery.EndEventsFreeExactly | capacity-service/internal/event/consumer.go:169-205 | a processed event frees all rows of its journey if it is cancelled, completed or expired, and changes nothing otherwise |
| Delivery.DuplicateChangesNothing | capacity-service/internal/event/consumer.go:187-205 | after one success with an event that ends a journey, in every continuation any event of that journey that any consumer processes leaves the rows of that time as they are, and the whole tables if no later reservation is made for the journey |
| Delivery.CapacityConsumer.ProcessWithRetry | capacity-service/internal/event/consumer.go:116-145 | one to three attempts, stopping at the first success; the rows are released iff one attempt got through |
| Sessions.NeighboursAreLinked | iam-service/internal/service/auth_service.go:223-330 | in every run, of two neighbouring tokens of a session the later was exchanged for the earlier, by the same user |
| Sessions.AtMostOneSuccessor | iam-service/internal/repository/token_repo.go:120-201 | no token is exchanged twice |
| Sessions.AtMostOneActive | iam-service/internal/service/auth_service.go:223-330 | of the tokens of one session only the latest can be active |
| Sessions.RevokedExactly | iam-service/internal/repository/token_repo.go:120-228 | a token is revoked by its exchange, by a logout that has looked it up or by a force-logout of its user, and by nothing else; no event changes it otherwise |
| Sessions.LogoutsAreOwn | iam-service/internal/service/auth_service.go:333-384 | in every run a logout revokes only a token that its own user presented while it was active |
| Sessions.PurgeSparesExactly | iam-service/internal/repository/token_repo.go:232-266 | in the run model too, a purge takes exactly what expired or was revoked before its limit, and never an active token |
| Sessions.ForceLogoutIsFinal | iam-service/internal/repository/token_repo.go:204-228 | after a force-logout no descendant of a session that the user had then is accepted in any later state |
| Sessions.AuthService.Register | iam-service/internal/service/auth_service.go:79-170 | a new user and a first token, or a conflict and no change |
| Sessions.AuthService.Login | iam-service/internal/service/auth_service.go:175-217 | starts a new session for a known user |
| Sessions.AuthService.Refresh | iam-service/internal/service/auth_service.go:223-330 | succeeds iff the token is active and its user exists; then the old token is dead and the new one active; otherwise nothing changes |
| Sessions.AuthService.Logout | iam-service/internal/service/auth_service.go:333-384 | revokes the token iff it is active and the caller's own |
| Sessions.AuthService.ForceLogout | iam-service/internal/service/auth_service.go:387-423 | for a known user, revokes exactly the tokens of the user that are not revoked yet, and changes no other |
| Sessions.AuthService.DeleteExpired | iam-service/internal/repository/token_repo.go:232-266 | deletes exactly the tokens that expired or were revoked before now minus the retention |
| Base64Url.Base64URLEncode | iam-service/internal/service/jwks_service.go:161-183 | the loop computes the group-wise encoding of section 5 of RFC 4648 |
| Base64Url.SextetOfSymbol | iam-service/internal/service/jwks_service.go:162 | the encoder's characters are those of the URL alphabet, given by ranges of characters |
| Base64Url.DecodeOfEncode | iam-service/internal/service/jwks_service.go:161-183 | a decoder of the URL alphabet, defined by ranges of characters, gives every byte sequence back; the length is 4n/3 rounded up |
| Base64Url.EncodeOfDecode | iam-service/internal/service/jwks_service.go:161-183 | a text that decodes is the encoding of what it decodes to iff its unused trailing bits are zero |
| Jwk.FromBytesOfToBytes | iam-service/internal/service/jwks_service.go:148-159 | big-endian bytes give the integer back and have no leading zero |
| Jwk.ToBytesOfFromBytes | journey-service/internal/middleware/auth.go:143-158 | bytes without leading zero are the bytes of their integer |
| Jwk.KeyRoundTrip | journey-service/internal/middleware/auth.go:143-158 | a key survives encoding and decoding iff its modulus is not negative and its exponent is positive or the smallest 64-bit integer |
| Jwk.ReadingFailsExactly | journey-service/internal/middleware/auth.go:143-158 | reading fails iff a part is no base64url or the low 64 bits of the exponent are zero, and otherwise gives the modulus spelt |
| Jwk.JwkDeterminesKey | iam-service/internal/service/jwks_service.go:148-159 | positive keys with equal JWK members are equal |
| TimeWindows.ComputeTimeWindows | journey-service/internal/service/time_window.go:22-51 | the loop yields every segment's window, five minutes longer than its traversal at both ends, and the departure plus the minutes of all traversals |
| TimeWindows.NeighboursOverlapTenMinutes | journey-service/internal/service/time_window.go:26-46 | neighbouring windows share exactly ten minutes |
| TimeWindows.WindowValidExactly | capacity-service/internal/service/reservation_service.go:253-263 | a window passes the reserve check iff its traversal takes more than -10 minutes |
| TimeWindows.WindowsCoverTheTrip | journey-service/internal/service/time_window.go:22-51 | an instant lies in some window iff the route is not empty and it lies from five minutes before departure to five minutes after arrival |
| TimeWindows.RouteKeepsBoundExactly | journey-service/internal/service/journey_service.go:324-362 | the request made from a route keeps the bound of its priority on every network iff the route re-enters no segment within ten minutes |
| TimeWindows.AuthorisedExactly | journey-service/internal/repository/journey_repo.go:700-744 | whatever other journeys are active, an active journey is authorised throughout its planned traversal iff no later visit of a segment outlasts the window of the first |
| TimeWindows.DistinctSegmentsAreSafe | journey-service/internal/repository/journey_repo.go:700-744 | with distinct segments the traversal is authorised throughout and the request keeps both bounds |
| Notifications.SendsStopAtTheFirstAnswer | notification-service/internal/event/consumer.go:236-260 | within a dispatch attempt k+1 goes out iff attempt k went out, failed in passing and was not the third; no attempt goes out twice |
| Notifications.Notifier.Insert | notification-service/internal/service/memory_store.go:28-45 | adds the record iff its event id is new |
| Notifications.Notifier.MarkAllRead | notification-service/internal/service/memory_store.go:131-146 | marks exactly the driver's records read and counts those that were unread |
| Notifications.Notifier.Deactivate | notification-service/internal/service/memory_store.go:200-215 | deactivates the record with the id and no other |
| Notifications.RetriesAreTransientAnswers | notification-service/internal/event/consumer.go:236-260 | the retry count is the number of sends that were answered with a transient error |
| Notifications.Notifier.SendWithRetry | notification-service/internal/event/consumer.go:236-260 | sends until the first answer that is not transient, three times at most, and reports that answer and the retries |
| Notifications.StatusAfterPush | notification-service/internal/event/consumer.go:178-234 | with failing loads and status writes: SENT iff some device got it and the last write got through, FAILED, SKIPPED, and RETRYING or PENDING for ever otherwise, each iff |
| Notifications.Notifier.DispatchPush | notification-service/internal/event/consumer.go:178-234 | sends to the driver's active devices iff there is a client and they can be loaded; the status of the status lemma; deactivates exactly the devices with a permanent error whose write gets through |
| Notifications.Notifier.Process | notification-service/internal/event/consumer.go:120-176 | a new event gets one record with the status, sends and deactivations of its dispatch; a duplicate changes nothing |
| NotificationRuns.QuietTurn | notification-service/internal/event/consumer.go:120-176 | an undisturbed turn stores, dispatches and acknowledges a known new event, by the event id carried or else the message's own, and only acknowledges any other message |
| NotificationRuns.OneNotificationOneDispatch | notification-service/internal/event/consumer.go:120-176 | over any interleaving of polls, reclaims and crashes, an event has at most one notification and one dispatch |
| NotificationRuns.AcknowledgedIsStoredExactly | notification-service/internal/event/consumer.go:155-176 | every moment of a run is settled iff the store never refuses a new event of a known type, and then every acknowledged message has its notification |
| NotificationRuns.AcknowledgedIsStored | notification-service/internal/event/consumer.go:155-176 | while the store accepts, an acknowledged message has its notification |
| NotificationRuns.SettledExactlyIfSafe | notification-service/internal/event/consumer.go:155-176 | a reachable state is settled iff, with a store that accepts from then on, no message is ever acknowledged without its notification |
| NotificationRuns.StoreErrorLosesNotification | notification-service/internal/event/consumer.go:159-164 | with any number of workers of which one is idle, one store error and an acknowledgement lose the notification of any new known message |
| NotificationRuns.LostEventIsBeyondRecall | notification-service/internal/event/consumer.go:159-164 | after such a loss the event can never be stored again without being published anew, if its other messages are acknowledged and no other worker is storing one |
| NotificationRuns.LostForGood | notification-service/internal/event/consumer.go:159-164 | an event with no unacknowledged message and no worker about to store it is never stored in any run that does not publish it again |

## Left out

- HTTP handlers, routing, middleware, JSON, logging, metrics and configuration: no property of their own.
- Redis, CockroachDB, JWT, bcrypt and FCM internals: abstracted to atomic steps with an outcome.
- The availability cache and the occupancy report: the cache is invalidated by exact window and may be stale up to its lifetime; no agreement is claimed.
- The count of admins on a replica before one is demoted: two calls can pass it at once, so that no admin is left.
- The early refusal of a driver with a live journey, read from a replica: the unique index decides, and is modelled.
- Guaranteed processing by the capacity consumer: it gives up after three failures; only safety and the orphan bound are claimed.
- Trimming of white space, zero times, the region and vehicle columns of a row: validation and data that no modelled statement reads.
- The order that sort.Slice gives to equal segment ids: one sort stands for the library's; the refinement holds for any permutation.
- Float rounding and the overflow of durations beyond 292 years: slots are exact reals and times unbounded integers.
- The place labels in the events of a journey: data that no modelled statement reads.
- Paging and listing of journeys and notifications, and registration of device tokens: they would only add easy members.
- Commits under isolation weaker than serialisable: under read committed a force-logout could miss a token being issued.
- Sagas marked FAILED, or marked COMPENSATED before their release calls ran: no later attempt recovers them; the orphan pass bounds the leak.
- Jwk.KeyRoundTrip: the decoder of the Go library also skips line breaks inside its input, which the encoder never writes.
- Lifecycle.JourneyService.Transition: one method stands for four operations that differ in their checks and target; the payloads of their events are not modelled.
- CapacityService.Service.DoReserveTx: database errors and serialisation restarts are taken up in the run model of Bookings.dfy.
