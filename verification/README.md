# Verified models of the authsec core

Dafny models of the parts of the authsec server where several requests, goroutines or database
sessions meet, or where bytes and strings are taken apart, with proofs about every run, every
interleaving or every input.

* **Rate limiting.** `RateWindow` holds the arithmetic of sliding windows. `MemoryLimiter` is the
  in-process limiter with its cleanup pass, `LimiterThreads` every interleaving of its critical
  sections, `LimiterOrphans` how far these can go, `RateLimitMiddleware` the choice of key and limit.
  `RedisLimiter` is the Redis limiter with atomic pipelines, `RedisSharedStamps` what equal stamps
  do to it, `RedisPipelines` the interleaved pipelines.
* **Workspace purge.** `RelationalStore` is a store with cascading, restricting, no-action and
  set-null keys, `DeleteOrders` every order in which a statement can run its triggers, and
  `WorkspacePurge` the eleven-statement transaction.
* **Out-of-band authorisation.** `Lifecycle` is the pending/decided/expired life all three request
  tables share. `Ciba`, `DeviceCodes` and `AgentActions` are the repositories; `CibaProtocol`,
  `DeviceProtocol` and `AgentVotes` are every interleaving of the services' steps over them, and
  `AgentDenials` decides which denials and approvals last; `CibaPlanes` relates the central and the workspace
  table; `UserCodes` is the typed code. `VoiceSessions` is the table of active voice sessions.
* **WebAuthn and second factors.** `RelyingParty` covers accepted origins and RP IDs, `OwnDomains` the
  deployment's own base domain, `AuthData` the authenticator-data bytes, `BackupCodes` the single-use
  codes, `BackupSchedules` the orders of requests, exact or normalised, stored or not, that keep them
  single-use, `JwksCache` the signing-key cache.

`Common` holds the types and character classes several modules share.

Objects that the source updates in place are classes whose methods are tied to functions of the old
state; loops are loops. Protocols are step systems (`Enabled`, `Next`, `CanRun`, `Run`), whose theorems
are about every run. Time is an integer parameter. The clock is taken to be non-decreasing only
where a lemma says so (`Orderly`, `ClockOk`, `Prompt`, `s.clock <= now`).

Some expectations do not hold of the code as it is. Each has a lemma that shows a run or an
input that breaks it, and beside it the condition under which it holds:

| expectation | fails | holds |
|---|---|---|
| cleanup never changes a decision | `MemoryLimiter.LongWindowForgets` | when each check runs without interruption, exactly for windows of at most two minutes, `MemoryLimiter.SweepInvisibleIff` and, with windows that grow, `MemoryLimiter.SweepsDropOutIff`; in an interleaving, for such a window and a key without orphans (entries deleted while fetched), `LimiterThreads.DecidesLikeFullLog` |
| a key admits at most its limit | `LimiterOrphans.OrphansAdmitMore`, for every limit, window and number of orphans; `LimiterOrphans.LongWindowAdmitsMore`, for every longer window, without orphans | in all runs with at most n orphans of the key exactly when n is zero and the window at most two minutes (or nothing can be admitted or counted), `LimiterOrphans.LimitKeptIff`; for a short window always within limit times one plus the orphans, `LimiterThreads.KeyBounded` |
| Redis admits no more than the in-process limiter | `RedisSharedStamps.SharedStampAdmitsMore`, for every window that holds a stamp; `RedisLimiter.GrowthAdmitsMore` | when each pipeline and check runs without interruption: with at most m requests per key and stamp exactly when m is at most one (two for a window of one stamp), `RedisSharedStamps.DominatedIff`; with different stamps exactly when a key's window grows by at most a minute, `RedisLimiter.GrowthIff` |
| the workspace statement of a purge succeeds | `WorkspacePurge.EntanglesTrips` | in every order of its triggers exactly when no record of the workspace restricts another, `WorkspacePurge.MayFailIff` |
| a purge reports how many rows of each table it deleted | `WorkspacePurge.NoGroupsSelected` | for every table but user_groups, whose rows went with the workspace and are reported as none, `WorkspacePurge.CountsExplained` |
| an approval is never lost to a deletion | `CibaProtocol.EarlyDeletionLosesApproval` | exactly when rows outlast a request's life and the longest poll, `CibaProtocol.RetentionIff` |
| a device token is handed out once | `DeviceProtocol.SlowPollDeliversAgain` | exactly when polls take less than half the interval, `DeviceProtocol.DeliveredOnceIff` |
| a denied action stays denied | `AgentDenials.DenialOverwritten` | exactly when nobody is about to write another status and those who may still count cannot bring enough approvers together, `AgentDenials.DenialStaysIff` |
| an approved action stays approved | `AgentDenials.Unapproves` | exactly when nobody at work on it is refusing it, is about to mark it expired, or saw it pending and has not voted, `AgentDenials.ApprovalStaysIff` |
| a decided action is written no more | `AgentVotes.UnspentWrites` | exactly when nobody at work on it has anything left to write, `AgentVotes.FinalIff` |
| both planes write the same row | `CibaPlanes.CasAgreesIff` | exactly for answers, or an unchanged responded_at, `CibaPlanes.CasAgreesIff` |
| the two RP ID choices agree | `RelyingParty.RpIdsAgreeIff` | exactly outside stage.authsec.ai and dev.authsec.ai, `RelyingParty.RpIdsAgreeIff` |
| every host under the own base domain gets a valid RP ID | `OwnDomains.UnsoundIsNot` | exactly when the first of the four picked domains inside the own domain ends it behind a dot, and no earlier one can arise where a label meets it, `OwnDomains.OwnDomainIff` |
| a backup code is accepted at most as often as issued | `BackupSchedules.OverlapAcceptsTwice` and, without any overlap, `BackupSchedules.UnstoredAcceptsTwice` | exactly when no two requests clash: both can be accepted (each stores or compares exactly), and the later to finish had loaded before the other finished, or the other did not store, `BackupSchedules.FairIff` |
| a backup code typed as displayed is accepted | `BackupCodes.DisplayedAcceptedIff` | by verifyBackupCode always; by VerifyTOTP exactly when the code does not have eight characters, as every generated one has, `BackupCodes.DisplayedAcceptedIff` |
| authenticator data can be sliced | `AuthData.PanicsIff` | exactly up to 65480 bytes of credential ID, `AuthData.RoundTripIff` |

## Model

| member | source | states |
|---|---|---|
| `RateWindow.RecentAbsorbs` | middlewares/mennanov_ratelimit.go:80-89 | pruning with an earlier clock and a wider window is invisible to a later, narrower look |
| `RateWindow.AdmitKeepsBound` | middlewares/mennanov_ratelimit.go:80-98 | admitting below the limit keeps at most `limit` stamps in every half-open window |
| `MemoryLimiter.Prune` | middlewares/mennanov_ratelimit.go:83-89 | the filtering loop keeps exactly the stamps younger than the window, in order |
| `MemoryLimiter.RateLimitEntry.Admit` | middlewares/mennanov_ratelimit.go:77-98 | allows iff fewer than `limit` stamps are recent, and then records the new one |
| `MemoryLimiter.InMemoryStore.CheckLimit` | middlewares/mennanov_ratelimit.go:66-99 | decision and new contents as a function of the old contents; every other key untouched |
| `MemoryLimiter.InMemoryStore.Fetch` | middlewares/mennanov_ratelimit.go:67-75 | the entry of the key, a new one only when there was none |
| `MemoryLimiter.InMemoryStore.SweepEntry` | middlewares/mennanov_ratelimit.go:39-55 | one entry pruned to two minutes and deleted iff that empties it |
| `MemoryLimiter.InMemoryStore.Cleanup` | middlewares/mennanov_ratelimit.go:33-59 | in any order of entries, the pass leaves exactly the pruned non-empty entries |
| `MemoryLimiter.DecisionsAgree` | middlewares/mennanov_ratelimit.go:33-99 | from any state that agrees with a full log, store and full-log reference answer every run alike |
| `MemoryLimiter.RefinesFullLog` | middlewares/mennanov_ratelimit.go:33-99 | with sweeps anywhere, the store answers as a limiter that forgets nothing |
| `MemoryLimiter.AdmissionsAgree` | middlewares/mennanov_ratelimit.go:66-99 | the stamps the store admits are those the reference logs |
| `MemoryLimiter.AdmissionsBounded` | middlewares/mennanov_ratelimit.go:66-99 | over every run at most `limit` admissions of a key in any half-open window, if that key's window is at most two minutes |
| `MemoryLimiter.AdmitsIff` | middlewares/mennanov_ratelimit.go:66-99 | after every run, with sweeps anywhere, a request is admitted iff fewer than `limit` admissions of its key lie in the window before it; other keys do not matter |
| `MemoryLimiter.LongWindowForgets` | middlewares/mennanov_ratelimit.go:39-55 | for every window over two minutes, a run where the sweep changes an answer |
| `MemoryLimiter.SweepInvisibleIff` | middlewares/mennanov_ratelimit.go:39-55 | with uninterrupted checks, the store answers as the full log in all runs of a window iff the window is at most two minutes |
| `MemoryLimiter.SweepsDropOut` | middlewares/mennanov_ratelimit.go:33-99 | with windows up to two minutes, also growing ones, taking the sweeps out of a run changes no answer |
| `MemoryLimiter.SweepsDropOutIff` | middlewares/mennanov_ratelimit.go:39-55 | so it is for all runs with windows up to a bound iff the bound is at most two minutes |
| `RateLimitMiddleware.SelectRateLimitConfig` | middlewares/mennanov_ratelimit.go:108-219 | 10 requests a minute iff an authentication prefix matches, else 50 iff an admin prefix does, else 100 |
| `RateLimitMiddleware.KeyDeterminesConfig` | middlewares/mennanov_ratelimit.go:143 | whatever the addresses look like, equal limiter keys come from the same client and the same class |
| `RateLimitMiddleware.ArrivalConfig` | middlewares/mennanov_ratelimit.go:135-146 | the limit and window read off a key are those of the request's own path |
| `RateLimitMiddleware.ClientBounded` | middlewares/mennanov_ratelimit.go:101-219 | in every interleaving of arrivals, decisions and cleanup turns, at most 10 authentication, 50 admin and 100 other requests of one client in any minute, times one plus the entries deleted under a waiting request |
| `RateLimitMiddleware.AtomicClientBounded` | middlewares/mennanov_ratelimit.go:101-219 | at most 10, 50 and 100 when each check runs without interruption |
| `RateLimitMiddleware.LetThroughIff` | middlewares/mennanov_ratelimit.go:101-219 | and then a request is let through iff fewer than 10, 50 or 100 of its client and class were in the minute before, whatever other clients do |
| `LimiterThreads.EntryBounded` | middlewares/mennanov_ratelimit.go:33-99 | in every interleaving of fetches, decisions and sweep turns each entry object keeps the limit of its key |
| `LimiterThreads.RequestsConserved` | middlewares/mennanov_ratelimit.go:66-99 | every request that has fetched its entry is decided once, or still waits |
| `LimiterThreads.ServingEntries` | middlewares/mennanov_ratelimit.go:33-99 | at most one entry that was not deleted while fetched serves a key in one window |
| `LimiterThreads.KeyBounded` | middlewares/mennanov_ratelimit.go:33-99 | in every interleaving a key admits at most limit times one plus its entries deleted while fetched |
| `LimiterThreads.KeyBoundedWithoutOrphans` | middlewares/mennanov_ratelimit.go:33-99 | the limit itself when no entry of the key was deleted while fetched |
| `LimiterThreads.DecidesLikeFullLog` | middlewares/mennanov_ratelimit.go:33-99 | in every interleaving without such an entry, every decision on a key with a window up to two minutes is that of a limiter that keeps all admissions of the key |
| `LimiterOrphans.OrphansAdmitMore` | middlewares/mennanov_ratelimit.go:33-99 | for every limit, window and n, an interleaving with exactly n such entries and exactly limit times one plus n admissions |
| `LimiterOrphans.LongWindowAdmitsMore` | middlewares/mennanov_ratelimit.go:33-99 | for every limit and every window over two minutes, an interleaving without such an entry that passes the limit |
| `LimiterOrphans.LimitKeptIff` | middlewares/mennanov_ratelimit.go:33-99 | for every configuration and n: all interleavings with at most n such entries keep the limit iff n is zero and the window at most two minutes, or nothing can be admitted or counted |
| `LimiterThreads.EmptiedIsOld` | middlewares/mennanov_ratelimit.go:42-53 | when a sweep empties an entry, all its admissions have left the window |
| `RedisLimiter.RedisServer.ZRemRangeByScore` | middlewares/redis_ratelimit.go:37 | removes the live members in the closed range, nothing else |
| `RedisLimiter.RedisServer.ZAdd` | middlewares/redis_ratelimit.go:41 | adds one member to the live ones; an equal member stays one |
| `RedisLimiter.RedisRateLimiter.Allow` | middlewares/redis_ratelimit.go:31-50 | decision and new key space of the four pipelined commands as functions of the old one |
| `RedisLimiter.CountsAttempts` | middlewares/redis_ratelimit.go:31-50 | trimming and key expiry never change a decision, from any mirrored state, for windows of any length that do not grow per key |
| `RedisLimiter.RefinesAttempts` | middlewares/redis_ratelimit.go:31-50 | the limiter answers as one that keeps every attempt for ever |
| `RedisLimiter.AttemptsDominate` | middlewares/redis_ratelimit.go:31-50 | counting attempts never admits what the in-process store, with sweeps anywhere, refuses, whatever the windows do, if few enough requests share a key and a stamp |
| `RedisLimiter.RedisDominated` | middlewares/redis_ratelimit.go:31-50 | what Redis admits the in-process limiter admits, for windows of any length that grow by at most a minute per key, if few enough requests share a key and a stamp |
| `RedisLimiter.GrowthAdmitsMore` | middlewares/redis_ratelimit.go:36-43 | for every larger growth, a run in which an expired key lets a request through that the other refuses |
| `RedisLimiter.GrowthIff` | middlewares/redis_ratelimit.go:31-50 | with different stamps per key every run is dominated iff windows grow by at most a minute |
| `RedisSharedStamps.SharedStampAdmitsMore` | middlewares/redis_ratelimit.go:32-49 | for every window and every larger share, a run in which Redis admits what the other refuses |
| `RedisSharedStamps.DominatedIff` | middlewares/redis_ratelimit.go:32-49 | with uninterrupted pipelines, the exact share up to which every run is dominated |
| `RedisSharedStamps.SharedStampsBounded` | middlewares/redis_ratelimit.go:32-49 | with at most m requests per key and stamp any window holds at most m times limit minus one, plus one, admissions |
| `RedisSharedStamps.SharedStampsTight` | middlewares/redis_ratelimit.go:32-49 | for every limit, every window at least as long and every m, some run reaches that bound |
| `RedisPipelines.CountedOrInFlight` | middlewares/redis_ratelimit.go:35-49 | an admitted request in the window is either counted now or still in flight |
| `RedisPipelines.AdmitsByAdded` | middlewares/redis_ratelimit.go:35-49 | in every run a request is admitted iff fewer than `limit` of the requests added so far lie in the window before it, and just those are left in the set |
| `RedisPipelines.PipelinesBounded` | middlewares/redis_ratelimit.go:35-49 | with at most k pipelines in flight any window holds at most limit + k - 1 admissions |
| `RedisPipelines.PipelinesTight` | middlewares/redis_ratelimit.go:35-49 | for every limit and every k some run reaches that bound |
| `RelationalStore.CascadedIsLeast` | database/workspace_repository.go:226-250 | what a DELETE removes is the least set closed under cascading keys |
| `RelationalStore.KeepingTwice` | database/workspace_repository.go:226-250 | removing rows in two statements or in one leaves the same store |
| `RelationalStore.RefusedIffDangling` | database/workspace_repository.go:264-287 | in a store without dangling keys, a statement is refused in every order iff it would leave one |
| `RelationalStore.DeletedIsPruned` | database/workspace_repository.go:264-287 | a statement that is not refused removes the cascade and exactly the keys into it, and leaves no dangling key |
| `RelationalStore.CascadedBeforeWithin` | database/workspace_repository.go:238-241 | what can go before a row does; all of it, when the row stays |
| `RelationalStore.ExecDelete` | database/workspace_repository.go:264-287 | one statement succeeds iff no row bars it and, in an unlucky order, none may refuse; then no key dangles; otherwise it names such a row |
| `DeleteOrders.FailsInSomeOrderIff` | database/workspace_repository.go:238-241 | some order of removals and RESTRICT checks fails iff a row can be left behind by a row it restricts |
| `DeleteOrders.PassesInSomeOrderIff` | database/workspace_repository.go:238-241 | some complete order passes iff no surviving row restricts a row that goes |
| `DeleteOrders.MayBeRefusedIff` | database/workspace_repository.go:238-250 | a statement may be refused iff some order fails or a NO ACTION key is left dangling |
| `DeleteOrders.BarredIff` | database/workspace_repository.go:238-250 | it is refused in every order iff no order passes or a NO ACTION key is left dangling |
| `WorkspacePurge.RunStatements` | database/workspace_repository.go:264-287 | commits iff every statement succeeds; otherwise reports the first one refused and the refusing row |
| `WorkspacePurge.WorkspaceRepository.DeleteTenant` | database/workspace_repository.go:226-293 | all or nothing; fails iff an outside record names a user of the workspace, or its records restrict one another and the triggers run unluckily; on success exactly the rows of the workspace and the keys into them are gone, every key left has its row, and each count is that of the table's rows; on failure, which row refused |
| `WorkspacePurge.PurgeKeepsKeys` | migrations/master/001_bootstrap.sql:2641 | a purge nobody refuses clears exactly the keys into the workspace, so every key still points to a row of the right table |
| `WorkspacePurge.CountsExplained` | database/workspace_repository.go:264-287 | each statement reports the rows its table had of the workspace, user_groups none |
| `WorkspacePurge.NoGroupsSelected` | database/workspace_repository.go:274 | the user_groups statement selects no row |
| `WorkspacePurge.OrderIsRight` | database/workspace_repository.go:226-276 | no statement meets a restricting or no-action key whose table an earlier one has not emptied |
| `WorkspacePurge.OnlyUsersLeft` | database/workspace_repository.go:226-293 | after ten statements only users are left of the workspace |
| `WorkspacePurge.MayFailIff` | database/workspace_repository.go:226-293 | of the first ten statements only the workspace one can be refused, iff a record or publication restricts another record of the workspace |
| `WorkspacePurge.EntanglesTrips` | database/workspace_repository.go:226-293 | each such row does refuse in some order |
| `WorkspacePurge.PurgeCorrect` | database/workspace_repository.go:226-293 | for every statement, when it is refused in every order and when in some; and the exact result |
| `WorkspacePurge.RefusalExplained` | database/user_delete_guard.go:12-71 | a refused purge is the users statement and its row names a user of the workspace, or the workspace statement and its row restricts a record |
| `WorkspacePurge.OthersUntouched` | database/workspace_repository.go:226-293 | rows of other workspaces, and OAuth clients, are unchanged unless they hold a set-null key into the workspace |
| `WorkspacePurge.RolesTooEarly` | database/workspace_repository.go:226-276 | deleting roles before memberships is refused in every order |
| `WorkspacePurge.WorkspaceTooEarly` | database/workspace_repository.go:226-276 | deleting the workspace before the lifecycle events is refused in some order, and in every order if the event does not go along |
| `Lifecycle.SweepTransparent` | models/ciba.go:84-91 | taking all expiry sweeps out of a run changes no later IsPending answer |
| `Lifecycle.TableTransparent` | models/device_auth.go:58-65 | the same for every table whose operations map onto the shared life |
| `Ciba.CIBAAuthRepository.CreateCIBAAuthRequest` | database/ciba_auth_repository.go:129-162 | a pending row, refused when the auth_req_id exists |
| `Ciba.CIBAAuthRepository.UpdateCIBAAuthRequestStatusIf` | database/ciba_auth_repository.go:251-264 | wins iff the row has the expected status; a loser changes nothing |
| `Ciba.CIBAAuthRepository.MarkAsConsumedIf` | database/ciba_auth_repository.go:269-277 | wins iff the row is approved; a loser changes nothing |
| `Ciba.CIBAAuthRepository.ExpireOldRequests` | database/ciba_auth_repository.go:280-295 | exactly the overdue pending rows expire, and their number is returned |
| `Ciba.CIBAAuthRepository.DeleteExpiredRequests` | database/ciba_auth_repository.go:298-312 | exactly the old finished rows go, and their number is returned |
| `Ciba.ExpirySweepsInvisible` | database/ciba_auth_repository.go:280-285 | whatever else happens to the table, ExpireOldRequests changes no later IsPending |
| `CibaProtocol.AtMostOneToken` | services/ciba_auth_service.go:150-316 | in every interleaving at most one winning answer and one token, and a token only for an approval |
| `CibaProtocol.PendingIff` | models/ciba.go:84-91 | in every run a request reads as pending iff it is in the table, nobody has won an answer, no expiry step has reached it and the deadline it was created with is not over |
| `CibaProtocol.OwnerAlone` | services/ciba_auth_service.go:243-316 | a claimed request has one owner, no token yet, and a consumed row |
| `CibaProtocol.ApprovalNotLost` | services/ciba_auth_service.go:243-316 | an approval without a token is claimable, owned, or its owner died or found no row |
| `CibaProtocol.SweepsSpareApproved` | database/ciba_auth_repository.go:280-312 | neither sweep changes or deletes an approved row |
| `CibaProtocol.NoApprovalStranded` | services/ciba_auth_service.go:243-316 | with rows kept long enough an approval without a token is claimable or has one owner |
| `CibaProtocol.EarlyDeletionLosesApproval` | database/ciba_auth_repository.go:298-312 | for every shorter retention, a run that loses an approval |
| `CibaProtocol.RetentionIff` | database/ciba_auth_repository.go:298-312 | no run loses an approval iff retention is at least life plus the longest poll |
| `CibaPlanes.TenantDeviceRepository.UpdateTenantCIBAAuthRequestStatusIf` | database/workspace_device_repository.go:147-165 | wins iff request, workspace and status match; responded_at is set only by an answer |
| `CibaPlanes.PlanesAgree` | database/workspace_device_repository.go:137-165 | over every sequence of answers, claims and put-backs both planes let the same callers win and keep the same status and responded_at |
| `CibaPlanes.WinnerMoves` | database/ciba_auth_repository.go:251-277 | a command wins iff it moves the request to another status; a loser changes nothing |
| `CibaPlanes.CasAgreesIff` | database/workspace_device_repository.go:147-165 | on other transitions the planes write the same row iff it is an answer or responded_at is already that |
| `UserCodes.GenerateUserCode` | database/device_auth_repository.go:432-448 | four charset characters, a hyphen, four more, each chosen by its byte |
| `UserCodes.CharsetIff` | database/device_auth_repository.go:429-432 | the charset is the capitals and digits without I, L, O, 0 and 1 |
| `UserCodes.CharsetDistinct` | database/device_auth_repository.go:429-432 | its 31 characters differ |
| `UserCodes.StripInjective` | database/device_auth_repository.go:432-448 | hyphen removal loses nothing on generated codes |
| `DeviceCodes.DeviceAuthRepository.CreateDeviceCode` | database/device_auth_repository.go:28-68 | refused iff the device code or the user code exists |
| `DeviceCodes.DeviceAuthRepository.FindByUserCode` | database/device_auth_repository.go:86-97 | finds a row iff its code is the typed one up to hyphens, and that row is the only one |
| `DeviceCodes.DeviceAuthRepository.UpdateLastPolled` | database/device_auth_repository.go:191-213 | too soon iff no row or the last accepted poll is nearer than the interval; then nothing changes |
| `DeviceCodes.DeviceAuthRepository.AuthorizeDeviceCode` | database/device_auth_repository.go:218-261 | succeeds iff a pending row fits; exactly the fitting pending rows become authorised or denied and take user, workspace, client and token; with the unique index that is one row |
| `DeviceCodes.DeviceAuthRepository.ExpireOldDeviceCodes` | database/device_auth_repository.go:269-281 | exactly the overdue pending rows expire |
| `DeviceCodes.DeviceAuthRepository.DeleteExpiredDeviceCodes` | database/device_auth_repository.go:284-296 | exactly the old finished rows go, and their number is returned |
| `DeviceCodes.LookupUnique` | database/device_auth_repository.go:86-97 | a typed code fits at most one row, with or without its hyphen |
| `DeviceCodes.DecidesOneRow` | database/device_auth_repository.go:218-261 | the update over all fitting rows is the update of the one fitting row |
| `DeviceCodes.ExpirySweepsInvisible` | database/device_auth_repository.go:269-274 | whatever else happens to the table, the expiry sweep changes no later IsPending |
| `DeviceProtocol.SingleDecision` | database/device_auth_repository.go:178-296 | in every interleaving, with any clocks, one decision, whose fields the row keeps; approved it reads authorised, refused denied, until consumed or marked expired; every delivery hands out its token |
| `DeviceProtocol.NeverPendingAgain` | models/device_auth.go:58-65 | a code that does not read as pending never does again, at any later time |
| `DeviceProtocol.PendingIff` | models/device_auth.go:58-65 | in every run a code reads as pending iff it is in the table, undecided, not reached by an expiry step and its deadline is not over |
| `DeviceProtocol.PollsSpaced` | database/device_auth_repository.go:191-213 | n accepted stamps between a and b satisfy (n - 1) * interval <= b - a, with any clocks |
| `DeviceProtocol.PollsInTurn` | services/device_auth_service.go:199-299 | in every run a poller's stamps each have a read of their own, and its deliveries a stamp of their own |
| `DeviceProtocol.OnlyLastStampCounts` | database/device_auth_repository.go:191-213 | in every run a poll is accepted iff there is no accepted stamp yet or the last one is at least the interval back; refused polls leave no trace |
| `DeviceProtocol.StampExcludes` | services/device_auth_service.go:199-299 | a prompt poll gets its stamp accepted only when nobody has been, or is being, handed the token |
| `DeviceProtocol.DeliveredAtMostOnce` | services/device_auth_service.go:199-299 | with polls under half the interval a token is handed out at most once |
| `DeviceProtocol.SlowPollDeliversAgain` | services/device_auth_service.go:199-299 | for every longer poll time, a run that hands the token out twice |
| `DeviceProtocol.DeliveredOnceIff` | services/device_auth_service.go:199-299 | every run hands a token out at most once iff polls take less than half the interval |
| `AgentActions.AgentActionRepository.ExpireOldActionRequests` | database/agent_action_repository.go:513-528 | exactly the overdue pending rows expire, and their number is returned |
| `AgentActions.AgentActionRepository.CreateDecision` | database/agent_action_repository.go:556-579 | inserted iff this approver had not voted; an earlier vote stays |
| `AgentActions.AgentActionRepository.CountDistinctApprovers` | database/agent_action_repository.go:584-603 | the number of different approvers, with the number required; none without a request |
| `AgentActions.ExpirySweepsInvisible` | database/agent_action_repository.go:513-519 | whatever else happens to the table, the expiry sweep changes no later IsPending |
| `AgentVotes.ApprovedMeansEnough` | services/agent_action_service.go:243-413 | in every interleaving Approved is written only with enough different approvers, Denied only after a denial |
| `AgentVotes.ThresholdNotMissed` | services/agent_action_service.go:243-413 | once enough have voted and all responders are done, one of them wrote Approved |
| `AgentVotes.VotesAreFinal` | database/agent_action_repository.go:556-603 | a first vote never changes and the count never falls |
| `AgentVotes.ExpiredOnlyLate` | services/agent_action_service.go:243-413 | in every run an action reads expired, or is about to, only if a sweep or a poller came after its deadline |
| `AgentVotes.PendingIff` | models/agent_action.go:138-146 | in every run an action reads as pending iff it was submitted as pending, no status has been written, no sweep has reached it and its deadline is not over |
| `AgentVotes.ClosedIsFinal` | services/agent_action_service.go:243-413 | a decided action whose remaining responders have nothing left to write keeps its row for ever |
| `AgentVotes.UnspentWrites` | services/agent_action_service.go:243-413 | anybody else still at work can write the action's status once more |
| `AgentVotes.FinalIff` | services/agent_action_service.go:243-413 | a decided action gets no further update in any continuation iff everybody at work on it is spent |
| `AgentDenials.LateApproval` | services/agent_action_service.go:243-413 | whatever its status, an action is marked approved in some continuation if somebody may still count and those who have approved or still can are enough |
| `AgentDenials.RunKeepsDenied` | services/agent_action_service.go:243-413 | a safe denial stays in every continuation |
| `AgentDenials.DenialStaysIff` | services/agent_action_service.go:243-413 | a denied action stays denied in every continuation iff it is safe |
| `AgentDenials.ApprovalStaysIff` | services/agent_action_service.go:243-413 | an approved action stays approved in every continuation iff nobody at work on it is refusing, about to expire it, or un-voted |
| `AgentDenials.DenialOverwritten` | services/agent_action_service.go:243-413 | a run from an empty table in which Denied is followed by Approved |
| `VoiceSessions.VoiceAuthRepository.RevokeVoiceActiveSession` | database/voice_auth_repository.go:648-671 | succeeds iff the session is active, and marks only that one |
| `VoiceSessions.VoiceAuthRepository.RevokeAllVoiceActiveSessions` | database/voice_auth_repository.go:674-688 | exactly the user's active sessions but the excepted one are revoked and counted |
| `VoiceSessions.VoiceAuthRepository.CleanupExpiredVoiceActiveSessions` | database/voice_auth_repository.go:737-751 | exactly the lapsed active sessions are revoked and counted |
| `VoiceSessions.VoiceAuthRepository.DeleteOldVoiceActiveSessions` | database/voice_auth_repository.go:754-767 | exactly the old inactive sessions go, and their number is returned |
| `VoiceSessions.VoiceAuthRepository.CountActiveSessionsForUser` | database/voice_auth_repository.go:724-734 | the length of every listing that names each active, unexpired session of the user once |
| `VoiceSessions.VoiceAuthRepository.ListActiveVoiceSessions` | database/voice_auth_repository.go:616-645 | exactly the active, unexpired sessions of that user in that workspace, each once, latest login first, as many as the count |
| `VoiceSessions.VoiceAuthRepository.IsSessionRevoked` | database/voice_auth_repository.go:703-721 | not revoked iff active and not past its expiry; a missing session is revoked |
| `VoiceSessions.VoiceAuthRepository.UpdateVoiceActiveSessionActivity` | database/voice_auth_repository.go:690-701 | stamps that session iff it is active, and no other |
| `VoiceSessions.ListedIffNotRevoked` | database/voice_auth_repository.go:616-721 | listed iff not revoked, save in the second of expiry |
| `VoiceSessions.RevocationIsFinal` | database/voice_auth_repository.go:648-767 | over every run a revoked session is never active again and keeps its time and reason |
| `VoiceSessions.StaysActiveIff` | database/voice_auth_repository.go:648-767 | over every run a session stays active iff nobody revokes it by id, or with all of its own user in its own workspace and not as the excepted one, and no cleanup runs after its expiry |
| `VoiceSessions.SweepTransparent` | database/voice_auth_repository.go:704-767 | cleanup and deletion anywhere in a run change no IsSessionRevoked answer |
| `VoiceSessions.RevokedForGood` | database/voice_auth_repository.go:704-721 | once revoked, expired or gone, revoked at every later instant of every run |
| `RelyingParty.CheckHost` | config/webauthn_config.go:45-84 | the loop with its early returns accepts iff the first deciding domain accepts |
| `RelyingParty.ValidateSubdomainOrigin` | config/webauthn_config.go:20-84 | accepted iff local in development, or https with an accepted host; a built-in domain is, and 1 to 63 characters below one are iff all are letters, digits or hyphens |
| `RelyingParty.LabelCharIff` | config/webauthn_config.go:73-76 | the label characters are the 26 letters in both cases, the ten digits and the hyphen |
| `RelyingParty.AcceptedIff` | config/webauthn_config.go:45-84 | the loop accepts iff the host is a built-in domain or a label under one, or the same of the own domain and no built-in one decides |
| `RelyingParty.BuiltInHost` | config/webauthn_config.go:45-84 | under every built-in domain exactly the labels of those characters are accepted, whatever the own domain is |
| `RelyingParty.AcceptedUnder` | config/webauthn_config.go:45-84 | an accepted host is a listed domain or one label of at most 63 letters, digits and hyphens under it |
| `RelyingParty.PickRpId` | config/webauthn_config.go:129-153 | the branch chain picks the first of its four domains contained in the host |
| `RelyingParty.ContainsIff` | config/webauthn_config.go:129-153 | a host under one built-in domain contains no other one, as a substring or as a suffix |
| `RelyingParty.RpIdsOf` | config/webauthn_config.go:129-153 | both RP IDs of an accepted host: its base domain, or for SetupWebAuthn the host when the domain is not one of four |
| `RelyingParty.RpIdValid` | config/webauthn_config.go:129-153 | the RP ID of every accepted host is the lower-case host or a dot-delimited suffix of it |
| `RelyingParty.ExtractRpIdIs` | handlers/sms_handler.go:31-72 | on every host, accepted or not: a built-in domain it is or lies below, if there is one, else the lower-case host without its port |
| `RelyingParty.PortIgnored` | handlers/sms_handler.go:44-53 | neither RP ID choice looks at the port |
| `RelyingParty.WithoutPortIs` | handlers/sms_handler.go:44-50 | what follows the last colon goes, unless it holds a closing bracket or nothing comes before |
| `RelyingParty.RpIdsAgreeIff` | handlers/sms_handler.go:31-72 | SetupWebAuthn and extractRPIDFromOrigin agree on an accepted host iff it is not below stage.authsec.ai or dev.authsec.ai |
| `OwnDomains.OwnDomainIff` | config/webauthn_config.go:52-153 | all hosts at or one label below an own domain get a valid RP ID iff the own domain is sound |
| `OwnDomains.AcceptedIsValid` | config/webauthn_config.go:45-153 | with a sound own domain every accepted host gets a valid RP ID |
| `OwnDomains.OwnDomainAcceptedIff` | config/webauthn_config.go:45-153 | with an own domain not below a built-in one, all accepted hosts do iff it is sound |
| `AuthData.RoundTripIff` | handlers/webauthn_handler.go:86-93 | slicing serialised data gives its parts back iff the credential ID has at most 65480 bytes, and panics otherwise |
| `AuthData.NetworkOrder` | handlers/webauthn_handler.go:86-93 | counter and credential length are big-endian, at offsets 33 and 53 |
| `AuthData.OnlySerialised` | handlers/webauthn_handler.go:86-93 | whatever is extracted, the bytes are the serialisation of it |
| `AuthData.PanicsIff` | handlers/webauthn_handler.go:86-93 | on any bytes, the slices panic iff the announced length wraps or exceeds the bytes |
| `AuthData.SerialiseInjective` | handlers/webauthn_handler.go:53-66 | different records have different bytes |
| `BackupCodes.CopyExcept` | handlers/totp_handler.go:763-769 | the copy loop gives the list without exactly that position |
| `BackupCodes.FirstOpen` | handlers/totp_handler.go:752-762 | the first position whose code matches, or the length when none does; undecryptable codes are passed over |
| `BackupCodes.VerifyBackupCode` | handlers/totp_handler.go:742-777 | accepts iff the code is, letter for letter in either case and without dashes, a stored one and the list without the first such was stored; otherwise nothing changes |
| `BackupCodes.NormalIff` | handlers/totp_handler.go:758-761 | two codes compare equal iff they differ in dashes and case only |
| `BackupCodes.DisplayedAcceptedIff` | services/webauthn_service.go:87-91 | a code typed as displayed is accepted, by VerifyTOTP iff it does not have eight characters |
| `BackupCodes.AcceptBackupCode` | handlers/totp_handler.go:482-507 | accepts iff a stored code is exactly the typed one; the first such goes if the write-back succeeds, and nothing changes otherwise |
| `BackupCodes.Conserved` | handlers/totp_handler.go:742-777 | issued plus unrecorded acceptances equals accepted plus left, over every current run |
| `BackupCodes.SerialConserved` | handlers/totp_handler.go:742-777 | runs without overlap are current, and acceptances plus codes left equal codes issued |
| `BackupSchedules.NoClashIsFair` | handlers/totp_handler.go:482-507 | without a clash every code is accepted at most as often as issued, on every list and for all presented codes, stored or not |
| `BackupSchedules.ClashAcceptsTwice` | handlers/totp_handler.go:742-777 | for every clash, a list and codes for which one stored code is accepted twice |
| `BackupSchedules.OverlapAcceptsTwice` | handlers/totp_handler.go:742-777 | a finish between the load and the finish of another request is one, both written back |
| `BackupSchedules.UnstoredAcceptsTwice` | handlers/totp_handler.go:499-507 | a failed write-back after an exact comparison, and any later request, is one without overlap |
| `BackupSchedules.FairIff` | handlers/totp_handler.go:742-777 | for every schedule, and every choice of who compares exactly and whose write-back succeeds: codes stay single-use iff there is no clash |
| `JwksCache.SpiffeKeys.GetPublicKey` | middlewares/spiffe_auth.go:174-233 | a hit answers from the cache; a miss yields a key iff the answer has status 200 and its first key is an RSA key that parses; otherwise nothing changes; that key is served for exactly the TTL, for that workspace only |
| `JwksCache.StepKeepsInv` | middlewares/spiffe_auth.go:162-233 | every cached, held and returned key goes back to a response for its workspace |
| `JwksCache.CallsConserved` | middlewares/spiffe_auth.go:162-233 | every call that starts returns one key, fails, or is still under way |
| `JwksCache.ReturnedKeysRecent` | middlewares/spiffe_auth.go:162-233 | in every interleaving a returned key was served for that workspace less than TTL plus the longest store delay and the longest hit, or at most the longest return delay, before |
| `JwksCache.BoundReached` | middlewares/spiffe_auth.go:162-233 | for every store delay and every hit, a run that returns a key of that greatest age |

## Left out

- RedisPipelines.PipelinesBounded: the stamp order of the trim-and-count pairs and their atomicity are taken as given, and key expiry is not part of the interleaved model.
- RedisLimiter.RefinesAttempts: for windows of one key that do not grow, as in the middlewares; `RedisLimiter.GrowthIff` says what growing ones do.
- RedisLimiter.RedisRateLimiter.Allow: scores are integers, so float rounding is not modelled; neither are pipeline errors and the fallback to admitting.
- LimiterThreads.DecidesLikeFullLog: for the same windows as the next line.
- LimiterThreads.KeyBounded: taken for a key whose window is two minutes or less and never changes, as the middleware has; `LimiterOrphans.LimitKeptIff` says what longer windows do.
- WorkspacePurge.PurgeCorrect: the append-only trigger that the transaction switches off is not modelled, and of the trigger order only that any may occur.
- RelyingParty.RpIdValid: case is that of ASCII letters, and a host is what url.Parse leaves; the parser itself is not modelled.
- BackupCodes.VerifyBackupCode: upper case is that of ASCII letters; decryption and the JSON of the column are parameters.
- Statements that write one row without a guard (UpdateStatus of a device code, UpdateActionRequestStatus, UpdateBackupCodes) have no row of their own; the protocol results above say what follows from them.
- ClassifyUserDeleteError recognises a refusal in the text of a PostgreSQL error; the model starts from the refusal.
- Deprecated unconditional CIBA updates, and row scanning and nullable columns in all repositories: easy members only.
- The cloud scan lease, risk scoring, the policy reconciler, and the content of minted tokens.
- HTTP handlers, JSON binding, CORS, audit output, configuration, Vault and billing.
- JWT, bcrypt, AES, CBOR, base64 and go-webauthn internals, and the tollbooth limiter.
