# Verified model of the monitoring platform's row protocols

The platform watches data-centre devices: collectors poll them and store readings, an alert engine opens and closes
alerts, workers deliver notifications, and schedules produce report jobs. These parts meet in shared database rows,
and what makes them correct is a property of whole runs. This project models those rows, the operations on them and
their interleavings, and proves what every run keeps.

Each transaction and each view action is one step; the escalation check, which has no transaction, is one step per row
and works there on the row as it was loaded at an earlier step. Where the program updates rows in place there is a class whose
methods do the same, tied by their postconditions to a function of the old state; the run-level theorems are about
those functions. Clocks, random numbers, UUIDs, query results in an unspecified order and the outcome of foreign
calls are parameters, so a theorem about all parameters covers every behaviour of the outside world. Where a theorem
speaks through a test or a row change with a name of its own, a lemma whose name ends in `Meaning` or `Exactly` says what
that test or change is in the columns of the row.

| file | subject |
|---|---|
| `Prelude.dfy` | options, instants in microseconds, distinctness |
| `AlertData.dfy`, `AlertSpec.dfy` | alert rows, and each engine block as a function of the tables |
| `AlertEvaluation.dfy` | what one evaluation pass does, key by key and in any rule order |
| `AlertRuns.dfy`, `AlertLogs.dfy`, `AlertGuarantees.dfy` | all runs: soundness; what logs and escalation lists record; duration, suppression, traps |
| `AlertExamples.dfy` | short runs in which an obvious claim about alerts fails |
| `AlertLookup.dfy` | an evaluation pass over what the cached rule lookup answers |
| `AlertMeaning.dfy` | conditions, windows, policies, traps and row changes said in the columns alone |
| `AlertStore.dfy` | the engine's methods on the stored rows |
| `RuleMatching.dfy`, `RuleCache.dfy`, `RuleCacheStore.dfy` | rule lookup, its versioned cache under interleaving, the service |
| `Delivery.dfy`, `DeliveryProgress.dfy`, `DeliveryStore.dfy` | the delivery machine with crashes, retries and stale-lease requeue; what an undisturbed task achieves; the row methods |
| `NotificationDedupe.dfy` | dedupe keys and the creation loops |
| `Calendar.dfy`, `Schedules.dfy`, `ScheduleStore.dfy` | month arithmetic, next runs, windows, claims |
| `ReportJobs.dfy`, `ReportJobStore.dfy` | the report-job machine and the job object |
| `PollScheduler.dfy` | the polling tick and bounded waiting |
| `Telemetry.dfy`, `Readings.dfy` | log against latest-value table; registers to alert conditions |

## Where the obvious claim is false

For each of these the code is modelled as it is. The lemma named first states when the claim does hold, as an
equivalence; the lemma after "fails in" shows the failure, on closed input unless its own words say otherwise.

- Every opening comes a full duration after its condition state was born, but the condition need not have been true all
  along: it was exactly if no evaluation in between auto-resolved (`DurationGuarantee`, with `FirstAlertIsEarned` for
  first alerts; fails in `ReopenedAfterASecond`).
- Suppressed evaluations are not deduplicated (`SuppressionPilesUp` counts the rows; `TwoSuppressedRows`).
- A trap keeps its OID unique exactly if no active alert has it or the event codes let the trap be folded in
  (`TrapKeepsUniqueExactly`, over runs `TrapsStayUnique`; fails in `TwoCodesTwoAlerts`).
- A policy already used hides later ones (`EscalatesByChoice` says which is chosen; `SecondPolicyNeverReached`).
- The status chain of a log is strict exactly if no acknowledgement was commented and no escalation was logged from a
  stale status (`LogsChainExactly`; fails in `CommentBreaksChain` and `StaleEscalationBreaksChain`).
- The escalated policies kept on a row are those its log names, once each, exactly if no escalation saved a list that
  had changed since it was loaded (`RemembersExactly`), as when checks do not overlap (`EscalatesOncePerPolicy`; fails
  in `OverlappingChecksEscalateTwice`, for every row and unused policy).
- A requeue is harmless exactly if no live worker holds a row that looks stale (`RequeueSafeExactly`; fails in
  `SlowWorkerSendsTwice`, for every timeout).
- The next run takes its date from a UTC clock and its time from the local zone. It lies ahead, and a claim passes its
  own validator, exactly as `NextRunAlwaysLater` and `ClaimPassesExactly` say (fails in `EarlyDeliveryRejected`; one
  rejection rolls back the whole batch, `ScheduleStore.Store.ClaimDue`). It skips no slot exactly if yesterday's local
  slot is over (`DailyRunIsEarliest`; fails in `WesternZoneSkipsSlot`).
- After a manual run the next window continues exactly if the save was acceptable (`RejectedManualRunRepeatsWindow`;
  fails in `RejectedManualRunHappens`).
- After any execution the next window continues exactly if the executed window ends with the newest one handed out or
  its save was rejected (`LateExecutionTilesExactly`; fails in `LateExecutionOverlaps`, for every schedule that is not
  daily).
- A job's file reflects template and data centre exactly if no edit changed them alone while a file or build existed
  (`InputsFreshExactly`; fails in `StaleInputsHappen`).
- A due configuration is polled in bounded time behind fewer than `limit` unsupported ones (`BoundedWaiting`) and never
  behind `limit` strictly more overdue ones (`BlockedForever`; `HealthyDeviceStarves` with `StarvingRunExists`). With
  equal due times the database's choice decides.
- The latest value is the newest exactly as long as no write is older than what it replaces (`OnePointNewestExactly`,
  for batches `NewestExactly`; fails in `BackdatedPointWins`, for every older point).

## Model

| member | source | states |
|---|---|---|
| `AlertSpec.NewestIsNewest` | apps/alerts/services/engine.py:604-610 | the picked alert is the maximum by trigger time, then creation, of all rows the query selects |
| `AlertSpec.NewestNone` | apps/alerts/services/engine.py:604-610 | nothing is picked exactly when no row is selected |
| `AlertMeaning.NumericCondition` | apps/alerts/services/engine.py:191-216 | for any mix of float, integer and boolean columns read in priority order, with booleans as 0 and 1, a rule holds if and only if reading and threshold stand in the relation of its operator |
| `AlertMeaning.TextCondition` | apps/alerts/services/engine.py:191-204 | the same for texts in dictionary order, defined by their first difference |
| `AlertMeaning.OtherConditions` | apps/alerts/services/engine.py:207-216 | no threshold: never; no value, or a text against a number: only NEQ |
| `AlertMeaning.ReadsOneWay` | apps/alerts/services/engine.py:45-64 | all columns read as exactly one number, one text, or nothing, so these cases are all |
| `AlertMeaning.SuppressionMeaning` | apps/alerts/services/engine.py:240-253 | suppressed if and only if some active window of the organization, closed at both ends, covers the clock and is for no other data centre, device or metric |
| `AlertEvaluation.EvaluateRuleIsLocal` | apps/alerts/services/engine.py:613-664 | evaluating a rule commutes with cutting the tables down to one key: it acts on its own key's alerts and condition state and leaves every other key and all keyless rows alone |
| `AlertEvaluation.ResolveUpsTrapIsLocal` | apps/alerts/services/engine.py:688-713 | the UPS clean-up sees and changes only keyless rows |
| `AlertEvaluation.TakeTurnsBySlice` | apps/alerts/services/engine.py:716-731 | after the loop each key has seen its own rule exactly once, with that rule's windows and clock, and a key no rule names is untouched |
| `AlertEvaluation.EvaluateRuleActivity` | apps/alerts/services/engine.py:595-664 | after evaluating one rule its key has an active alert if and only if the condition is true, no window suppresses it, and one was active before or the duration has passed since the first sighting |
| `AlertMeaning.ActivityMeaning` | apps/alerts/services/engine.py:595-651 | that condition in columns: true, unsuppressed, and an OPEN or ACKNOWLEDGED alert of the key, or no duration, or a first sighting that many seconds ago |
| `AlertMeaning.TrackingMeaning` | apps/alerts/services/engine.py:285-321 | all condition states after one turn: started or continued with first sighting kept, ended, or untouched |
| `AlertEvaluation.ActiveAlertCarriesReading` | apps/alerts/services/engine.py:324-394 | whenever the key ends up active, its alert holds the evaluated reading and time: the same row with status and trigger time kept if one was active, else a new OPEN row of the rule's severity |
| `AlertEvaluation.EvaluateLatestMeaning` | apps/alerts/services/engine.py:716-737 | the same if-and-only-if for every matching rule's key after the whole pass, each rule deciding by its own windows and clock on the tables the pass began with, and every other key's rows and state are unchanged |
| `AlertEvaluation.EvaluateLatestOnTraps` | apps/alerts/services/engine.py:733-737 | on keyless rows the whole pass does what the UPS clean-up alone does |
| `AlertMeaning.UpsMeaning` | apps/alerts/services/engine.py:688-713 | on a healthy reading exactly the newest active keyless trap alert of the scope that names the UPS condition by code, OID or message in any case ends RESOLVED, AUTO and now; no other row and no state changes |
| `AlertEvaluation.EvaluationOrderIrrelevant` | apps/alerts/services/engine.py:716-737 | any two orders of the same rules, each keeping its clock (at a fixed clock, then, all of them), give the same alerts, logs and states for every key and the same keyless rows |
| `AlertLookup.PassMeaning` | apps/alerts/services/engine.py:716-731 | over the fresh list of matching rules, each applying rule's key ends up active if and only if it should be, and the key of any other rule is untouched |
| `AlertLookup.CachedPassIsUncachedPass` | apps/alerts/services/engine.py:175-188 | in every run of the cache, a pass over the answer of an undisturbed cached lookup equals the pass over the plain sorted query |
| `AlertLookup.CachedPassMeaning` | apps/alerts/services/engine.py:720-731 | so after it every rule of the current table that applies has decided its key, and no other rule has |
| `AlertRuns.StepExtends` | apps/alerts/services/engine.py:324-592 | no step shortens the alert table, a stale escalation included; at most one row is new and it is sound; every old row only advances |
| `AlertRuns.StepKeepsUnique` | apps/alerts/services/engine.py:604-664 | evaluation, UPS clean-up, traps, acknowledgement, manual resolve, escalation from any loaded row and rule deletion all keep at most one active alert per key |
| `AlertRuns.RunsAreSound` | apps/alerts/services/engine.py:324-664 | in every run, overlapping and stale escalation checks included: one active alert per key; OPEN has no acknowledgement time, active rows no resolution, RESOLVED rows a resolution time and type; occurrences are one plus the UPDATED entries; one creation entry, at the front; at most one ACKNOWLEDGED entry |
| `AlertRuns.EmptyIsSound` | apps/alerts/models.py:154-159 | the empty tables are sound, so the run theorems apply from installation on |
| `AlertRuns.RunsOnlyAdvance` | apps/alerts/services/engine.py:397-518 | between any two moments of a run a row keeps scope, metric and trigger time, its log only grows, a closed alert never becomes active again and an acknowledged one never OPEN |
| `AlertMeaning.StepStamps` | apps/alerts/services/engine.py:397-518 | status, acknowledgement time, resolution time and type of every row after every step: acknowledged, MANUAL, AUTO or SUPPRESSED with that step's clock, exactly by the kind of step, or unchanged |
| `AlertMeaning.NewRowMeaning` | apps/alerts/services/engine.py:324-352 | every column of a row a step adds, and that it is OPEN or SUPPRESSED exactly by the windows |
| `AlertMeaning.UpdateMeaning` | apps/alerts/services/engine.py:362-394 | what a repeated sighting changes, by reading or by trap, and that nothing else does |
| `AlertMeaning.DeletionMeaning` | apps/alerts/models.py:159-159 | deleting a rule unlinks its alerts and drops exactly its condition states |
| `AlertLogs.StepChains` | apps/alerts/services/engine.py:457-474 | per step and row: the status chain of the log survives if and only if the step is no commented acknowledgement and no stale escalation; without comments, if and only if it is no stale escalation |
| `AlertLogs.LogsChainExactly` | apps/alerts/services/escalation.py:61-69 | per run: without comments a row's log chains up to its status if and only if no escalation of the row was logged from a stale status; with comments, if and only if moreover no comment on an acknowledgement is in it |
| `AlertLogs.EscalationRemembersExactly` | apps/alerts/services/escalation.py:50-61 | saving a loaded list with one more policy keeps list and log in agreement if and only if the loaded list is still the row's |
| `AlertLogs.RemembersExactly` | apps/alerts/services/escalation.py:48-71 | per run: the policies kept on a row are exactly those its log names, each once, if and only if no escalation saved an outdated list |
| `AlertLogs.ApartIsUntorn` | apps/alerts/services/escalation.py:74-88 | checks that do not overlap never save an outdated list |
| `AlertLogs.EscalatesOncePerPolicy` | apps/alerts/services/escalation.py:48-71 | in every run whose checks do not overlap an alert has one ESCALATED entry for a policy if the policy is recorded on it and none otherwise |
| `AlertSpec.EscalatesByChoice` | apps/alerts/services/escalation.py:80-87 | a check escalates a row by the first policy that fires for the row as loaded, exactly when that row has not used it, and else leaves the row alone |
| `AlertMeaning.FiresExactly` | apps/alerts/services/escalation.py:10-45 | a policy fires if and only if it is active, of the alert's severity, for no other organization or data centre, and the first minutes have passed since the trigger of an OPEN alert, or the second since its acknowledgement or else its trigger |
| `AlertMeaning.LonePolicyExactly` | apps/alerts/services/escalation.py:48-71 | a lone policy escalates a loaded row if and only if it is unused and so deserved; the whole row afterwards in columns |
| `AlertMeaning.FirstDeservedDecides` | apps/alerts/services/escalation.py:80-87 | of several policies the first deserved one acts as if it were alone |
| `AlertMeaning.NoneDeserved` | apps/alerts/services/escalation.py:80-87 | with no deserved policy the row is untouched |
| `AlertMeaning.AcknowledgedIsLeftAlone` | apps/alerts/services/escalation.py:40-44 | an acknowledged alert is never escalated for lack of acknowledgement |
| `AlertMeaning.CheckMeaning` | apps/alerts/services/escalation.py:74-88 | an undisturbed check gives each OPEN or ACKNOWLEDGED row its turn and leaves all others and all states alone |
| `AlertGuarantees.OpeningStep` | apps/alerts/services/engine.py:613-651 | only a true evaluation of the key's own rule whose duration has passed makes a key active |
| `AlertGuarantees.StateStep` | apps/alerts/services/engine.py:285-321 | only such an evaluation creates a condition state, no step moves its first sighting, and with no active alert it survives only true evaluations |
| `AlertGuarantees.DurationGuarantee` | apps/alerts/services/engine.py:595-664 | in every run any alert that opens in the life of a condition state does so no earlier than its duration after the state's birth; every evaluation since then was true if and only if none of them auto-resolved an alert |
| `AlertGuarantees.FirstAlertIsEarned` | apps/alerts/services/engine.py:613-651 | so the first alert of a life follows a full duration in which every evaluation was true |
| `AlertGuarantees.ReopensAtOnce` | apps/alerts/services/engine.py:654-664 | after an auto-resolve the next true reading reopens at once, whatever the duration, once the old first sighting is old enough |
| `AlertGuarantees.SuppressionPilesUp` | apps/alerts/services/engine.py:616-640 | n suppressed true evaluations of a key add n SUPPRESSED rows without resolution time, or n - 1 if one was active, which the first of them closes; the condition state stays as it was |
| `AlertGuarantees.TrapKeepsUniqueExactly` | apps/alerts/services/engine.py:521-592 | a trap keeps one active alert per scope and OID if and only if none is active or the active one takes it in |
| `AlertGuarantees.TrapIsRecorded` | apps/alerts/services/engine.py:546-592 | after every trap an active alert of its OID carries its code, message, severity and time |
| `AlertMeaning.TrapMeaning` | apps/alerts/services/engine.py:531-563 | a trap that adds no row was folded into an active keyless alert of its scope and OID, its code unknown or equal; if all of those have another code it adds a row |
| `AlertGuarantees.TwoCodesTwoAlerts` | apps/alerts/services/engine.py:546-592 | two event codes for one OID leave two active alerts |
| `AlertGuarantees.TrapsStayUnique` | apps/alerts/services/engine.py:521-592 | if the code is a fixed function of scope and OID, every run mixing all kinds of steps has at most one active alert per scope and OID |
| `AlertGuarantees.OidIsFixed` | apps/alerts/services/escalation.py:50-61 | the scope and OID of a row never change, though an escalation saves metadata loaded earlier |
| `AlertGuarantees.EscalationKeepsLifecycle` | apps/alerts/services/escalation.py:48-71 | an escalation changes a row's list, log and trap metadata and nothing else |
| `AlertGuarantees.UsedPolicyHidesLaterOnes` | apps/alerts/services/escalation.py:79-87 | once a firing policy is used, later checks of the same row can only escalate by a policy ordered before it |
| `AlertExamples.ReopenedAfterASecond` | apps/alerts/services/engine.py:654-664 | a rule of one minute reopens its alert on a single reading one second after it was resolved |
| `AlertExamples.TwoSuppressedRows` | apps/alerts/services/engine.py:616-640 | two evaluations in a maintenance window leave two rows |
| `AlertExamples.SecondPolicyNeverReached` | apps/alerts/services/escalation.py:79-87 | the thirty-minute policy fires after an hour and is not used, because the ten-minute policy was |
| `AlertExamples.OverlappingChecksEscalateTwice` | apps/alerts/services/escalation.py:50-69 | two checks that loaded the same row log two escalations by one policy, and the list shows one |
| `AlertExamples.StaleEscalationBreaksChain` | apps/alerts/services/escalation.py:61-69 | an alert resolved between query and save is RESOLVED with a last entry that says OPEN |
| `AlertExamples.CommentBreaksChain` | apps/alerts/services/engine.py:457-474 | the three entries of a commented acknowledgement do not chain; without the comment they do |
| `AlertStore.Store.CreateRuleAlert` | apps/alerts/services/engine.py:324-352 | the new row and its single creation entry, OPENED or SUPPRESSED |
| `AlertStore.Store.UpdateActiveAlert` | apps/alerts/services/engine.py:362-394 | values, last sighting, occurrences and one UPDATED entry; nothing else |
| `AlertStore.Store.ResolveAlert` | apps/alerts/services/engine.py:397-430 | status, resolution time and type, last sighting, one RESOLVED entry from the old status |
| `AlertStore.Store.AcknowledgeAlert` | apps/alerts/services/engine.py:440-475 | only an OPEN alert changes; the comment entry precedes the acknowledgement entry |
| `AlertStore.Store.ManuallyResolveAlert` | apps/alerts/services/engine.py:478-490 | a manual resolution followed by the comment entry, from any status |
| `AlertStore.Store.SuppressAlert` | apps/alerts/services/engine.py:493-518 | the suppressed row with resolution time and its entry |
| `AlertStore.Store.UpsertConditionState` | apps/alerts/services/engine.py:285-317 | a live state keeps its first sighting; only this key's state changes |
| `AlertStore.Store.EnsureAlertForTrueCondition` | apps/alerts/services/engine.py:613-651 | refines the block the run theorems study; the reported row is the only one touched |
| `AlertStore.Store.ResolveIfNeeded` | apps/alerts/services/engine.py:654-664 | refines the block; clears the state only without an active alert |
| `AlertStore.Store.ResolveUpsTrapAlertIfNeeded` | apps/alerts/services/engine.py:688-713 | refines the UPS clean-up |
| `AlertStore.Store.EvaluateLatest` | apps/alerts/services/engine.py:716-737 | the loop refines the pass that `EvaluateLatestMeaning` describes, a clock reading per rule, and every row added or changed is in the returned list |
| `AlertStore.Store.CreateOrUpdateTrapAlert` | apps/alerts/services/engine.py:521-592 | refines the trap block; the returned row is the only one touched |
| `AlertStore.Store.EscalateAlert` | apps/alerts/services/escalation.py:48-71 | writes list, metadata and entry of the loaded object onto the stored row, exactly when that object has not used the policy |
| `AlertStore.Store.EscalateByFirst` | apps/alerts/services/escalation.py:80-87 | the inner loop tests the loaded object, tries the first firing policy and stops: the step that the run theorems interleave |
| `AlertStore.Store.RunAlertEscalationCheck` | apps/alerts/services/escalation.py:74-88 | from one loaded list, with nothing in between: every row loaded active is tried once, others are left alone, and the returned list holds exactly the rows escalated |
| `RuleMatching.MatchesMeaning` | apps/alerts/services/engine.py:138-172 | the five-way query matches a device rule on its device and any other rule field by field with unset fields as wildcards |
| `RuleMatching.FreshUnique` | apps/alerts/services/engine.py:102-119 | rank, creation time and key determine one answer only |
| `RuleMatching.SortedQueryIsFresh` | apps/alerts/services/engine.py:185-188 | sorting the rows from any database order gives that answer: all matching rules, strictly descending |
| `RuleMatching.FreshMeaning` | apps/alerts/services/engine.py:102-119 | a list is the answer if and only if it holds exactly the rules that apply, field by field, with device rules first, then rules with a data centre, then rules with a device type, then the later created, then the larger key |
| `RuleMatching.SpecificRulesFirst` | apps/alerts/services/engine.py:105-114 | in any answer a device rule precedes all others, both before either alone, data centre before device type, either before neither |
| `RuleMatching.StillMatching` | apps/alerts/services/engine.py:178-183 | a hit returns exactly the cached rules that still match |
| `RuleMatching.StillMatchingDistinct` | apps/alerts/services/engine.py:178-183 | re-checking a duplicate-free list gives a duplicate-free list |
| `RuleCache.StepKeepsInv` | apps/alerts/services/cache.py:16-48 | every reader step, commit, late invalidation, expiry and eviction keeps: an entry was the uncached answer at a table no older than its version's installation, and the current version lags by no more commits than still await their bump |
| `RuleCache.RunsKeepInv` | apps/alerts/services/engine.py:122-188 | the same over every interleaving from an empty cache |
| `RuleCache.CurrentEntryLag` | apps/alerts/models.py:116-146 | an entry under the current version is the uncached answer at most as many commits ago as changes await invalidation |
| `RuleCache.SettledCacheIsFresh` | apps/alerts/services/engine.py:175-188 | with nothing awaiting invalidation, a list is the uncached answer if and only if it is the entry under the current version |
| `RuleCache.AnswersAlwaysMatch` | apps/alerts/services/engine.py:175-188 | in every run an answer is duplicate-free and names only active rules that match at a moment within the read |
| `RuleCache.SettledReadIsRecent` | apps/alerts/services/engine.py:122-188 | a read begun with nothing awaiting invalidation never uses a list older than its own start |
| `RuleCache.CachedLookupRefinesQuery` | apps/alerts/services/engine.py:175-188 | with no commit during such a read, the cached lookup returns exactly the list of the plain sorted query |
| `RuleCache.FilledThenHit` | apps/alerts/services/engine.py:177-183 | a reader that follows a fill under the current version answers from the entry, without a query, with the same list |
| `RuleCache.MissedThenQueried` | apps/alerts/services/engine.py:185-188 | a miss queries, answers the fresh list and leaves it under its version |
| `RuleCacheStore.Service.GetVersion` | apps/alerts/services/cache.py:16-30 | an existing version is kept; a missing one is replaced by one with no entries |
| `RuleCacheStore.Service.Invalidate` | apps/alerts/services/cache.py:36-45 | the new namespace is empty, whatever the rule table now holds |
| `RuleCacheStore.Service.SaveRule` | apps/alerts/models.py:116-131 | the table changes at one rule and the cache agrees with it |
| `RuleCacheStore.Service.DeleteRule` | apps/alerts/models.py:133-146 | the rule is gone and the cache agrees with the table |
| `RuleCacheStore.Service.GetMatchingRules` | apps/alerts/services/engine.py:175-188 | hit or miss, the answer is the uncached one and is cached under the current version |
| `Delivery.StepKeepsInv` | apps/notifications/services/delivery.py:36-107 | with timely workers every step keeps: an in-flight task owns its DELIVERING row alone, and each successful send is in the row, in a worker about to mark it, or lost with a dead worker |
| `Delivery.RequeueSafeExactly` | apps/notifications/services/delivery.py:68-97 | a requeue keeps that ownership if and only if no live worker holds a row that looks stale |
| `Delivery.RunsKeepInv` | apps/notifications/tasks.py:17-64 | the same over every interleaving of tasks, retries, crashes, requeues and view touches |
| `Delivery.DeliverySafety` | apps/notifications/tasks.py:17-64 | at most one worker per notification, at most one successful send beyond those whose worker died before marking, at most four attempts per task |
| `Delivery.SentIsAbsorbing` | apps/notifications/services/delivery.py:48-50 | once SENT a row stays SENT with its time, and is never sent again |
| `Delivery.SlowWorkerSendsTwice` | apps/notifications/services/delivery.py:88-97 | a worker slower than the timeout leads to two successful sends with no crash |
| `DeliveryProgress.ClaimMeaning` | apps/notifications/services/delivery.py:36-54 | a queued task goes on to send if and only if its row is PENDING or FAILED, else it is over; rows and tasks in columns |
| `DeliveryProgress.MarkMeaning` | apps/notifications/tasks.py:40-64 | SENT and over after a success; FAILED and queued again after a failure, or over after three retries |
| `DeliveryProgress.RequeueMeaning` | apps/notifications/services/delivery.py:88-97 | a requeue takes a row back if and only if it is DELIVERING and was last touched at least the timeout ago |
| `DeliveryProgress.LoneTaskOutcome` | apps/notifications/tasks.py:17-64 | in every run that leaves a fresh task on a PENDING or FAILED row alone: it always has a next step until it is finished, after at most twelve; if no send succeeds it makes exactly four attempts and the row is FAILED; if one does, the row is SENT |
| `DeliveryProgress.SuccessEndsTask` | apps/notifications/tasks.py:31-45 | whichever attempt succeeds is the last, and after its next step the row is SENT |
| `DeliveryStore.Mailbox.ClaimForDelivery` | apps/notifications/services/delivery.py:36-54 | claims if and only if the row exists and is PENDING or FAILED; the claimed row in columns; no other row changes |
| `DeliveryStore.Mailbox.RequeueStale` | apps/notifications/services/delivery.py:86-107 | at the locked re-check exactly the listed rows still DELIVERING and stale go back to PENDING; all others are unchanged; the list returned is exact |
| `DeliveryStore.Mailbox.DeliverPending` | apps/notifications/services/delivery.py:211-235 | each listed PENDING or FAILED row ends SENT now, or FAILED with its error, all others are unchanged, and the returned list is exact |
| `NotificationDedupe.JoinInjective` | apps/alerts/services/notifications.py:113-114 | joining colon-free parts by colons is injective, their number included |
| `NotificationDedupe.KeysAreInjective` | apps/alerts/services/notifications.py:329-329 | two keys of either format are equal if and only if alert, action or policy, channel and user all are; the formats never collide |
| `NotificationDedupe.KeyText` | apps/alerts/services/notifications.py:113-114 | the two key formats, letter by letter |
| `NotificationDedupe.CreateMeaning` | apps/alerts/services/notifications.py:126-177 | one creation: nothing if the key is taken; for an alert action the newest earlier row gets the key, if it has none; otherwise a new row |
| `NotificationDedupe.CreateAllKeepsUnique` | apps/alerts/services/notifications.py:117-199 | any sequence of creations, adoptions of keyless rows included, keeps non-null keys unique |
| `NotificationDedupe.RepeatedLoopIsIdle` | apps/alerts/services/notifications.py:215-254 | repeating a creation loop, even after any other creations, changes no row |
| `NotificationDedupe.LoopCounts` | apps/alerts/services/notifications.py:124-199 | from rows with their own key or none, a loop gives each purpose it covers its key on a row and leaves it the rows it had, plus one if there was none to use; any other purpose keeps rows and keys |
| `NotificationDedupe.ExactlyOneRowEach` | apps/alerts/services/notifications.py:316-388 | where every row has its key, a loop leaves exactly one row for every purpose it covers |
| `NotificationDedupe.PurposesForMeaning` | apps/alerts/services/notifications.py:118-123 | a loop covers a notification if and only if it is the occasion's for some recipient and channel, where mail needs an address and text messages a number |
| `NotificationDedupe.EscalationChannelsMeaning` | apps/alerts/services/notifications.py:378-380 | the web inbox and the policy's channel, once each |
| `NotificationDedupe.LoopMeaning` | apps/alerts/services/notifications.py:215-233 | after a loop over keyed rows: one row for each recipient and channel that can receive, and what there was for anything else |
| `NotificationDedupe.Outbox.CreateOne` | apps/alerts/services/notifications.py:124-199 | creates, adopts or skips; reports exactly whether a row was added |
| `NotificationDedupe.Outbox.CreateForAlert` | apps/alerts/services/notifications.py:220-233 | the nested loop covers every reachable recipient and channel, in order, and counts the rows added |
| `NotificationDedupe.Outbox.CreateForEscalation` | apps/alerts/services/notifications.py:373-388 | the same for an escalation, over the web inbox and the policy's own channel |
| `Calendar.DayNumberOrders` | apps/reports/models.py:226-231 | day numbers order valid dates as month and day do, and are injective |
| `Calendar.AddMonthsExact` | apps/reports/models.py:226-231 | for any count the result is a valid date exactly that many months away, on the same day or its month's last |
| `Calendar.AddMonthsMonotone` | apps/reports/models.py:226-231 | shifting keeps the order of dates |
| `Calendar.AddMonthsComposes` | apps/reports/models.py:226-231 | two shifts land in the month of one, never later, and on the same date if and only if the month between has the day; always up to day 28 |
| `Calendar.AddMonthsRoundTrip` | apps/reports/models.py:226-231 | there and back is the identity if and only if the month between has the day |
| `Calendar.AddDays` | apps/reports/models.py:233-243 | a valid date exactly that many days away, in either direction |
| `Calendar.OneStepForward` | apps/reports/models.py:233-243 | one step is exactly a day, exactly a week, or at least four weeks |
| `Calendar.ShiftMeaning` | apps/reports/models.py:233-243 | any number of steps in either direction moves exactly that many days, weeks, months or quarters, at the same time of day |
| `Calendar.KnownLengths` | apps/reports/models.py:230-230 | month lengths, the century rule, 146097 days in four hundred years, and the number of 1 January 1970 |
| `Schedules.NextRunIsLater` | apps/reports/models.py:262-269 | the next run is after a UTC reference if and only if the schedule is not daily or the reference is early enough in its UTC day |
| `Schedules.NextRunAlwaysLater` | apps/reports/models.py:262-269 | for all references: always for weekly, monthly and quarterly, and for daily if and only if the delivery time is not before the zone offset |
| `Schedules.NextRunMeaning` | apps/reports/models.py:262-269 | the delivery time in the local zone on the reference's date if that is ahead, else one day, week, month or quarter on |
| `Schedules.WindowMeaning` | apps/reports/models.py:271-278 | a window ends at the reference and starts at the last run, or one day, week, month or quarter back before the first |
| `Schedules.HandOutMeaning` | apps/reports/services/schedules.py:115-119 | a schedule is claimed only while active with its next run come, and run by hand only while active |
| `Schedules.ReconfiguredMeaning` | apps/reports/models.py:351-360 | an edit moves the next run if and only if timing changed or the schedule becomes active or had none, and never the last run |
| `Schedules.DailyRunIsEarliest` | apps/reports/models.py:262-269 | a daily next run that lies ahead is the earliest delivery slot after the reference if and only if yesterday's local slot is over, as it always is in zones ahead of UTC |
| `Schedules.WesternZoneSkipsSlot` | apps/reports/models.py:265-268 | six hours behind UTC a 21:00 report asked for at 02:00 UTC skips the slot one hour ahead |
| `Schedules.ClaimPassesExactly` | apps/reports/services/schedules.py:120-126 | a claim passes its own validator if and only if the schedule is not daily or the clock is early enough; under the condition above it always does and the schedule is no longer due |
| `Schedules.EarlyDeliveryRejected` | apps/reports/models.py:341-342 | a daily report at 05:00, six hours ahead of UTC, claimed at 23:30 UTC, is rejected |
| `Schedules.ExecutionRewritesClaim` | apps/reports/services/schedules.py:163-170 | executing a claimed window rewrites the same last and next run the claim wrote |
| `Schedules.LateExecutionTilesExactly` | apps/reports/services/schedules.py:169-170 | after executing any window the next one starts where the newest one handed out ended, if and only if the executed window ends there too or its save is rejected |
| `Schedules.LateExecutionOverlaps` | apps/reports/services/schedules.py:165-170 | for every schedule that is not daily, a manual run between a claim and its execution is covered again by the next window |
| `Schedules.RejectedManualRunRepeatsWindow` | apps/reports/services/schedules.py:165-199 | after a manual run the next window starts at its end if and only if the save was acceptable, else it starts where the reported window did |
| `Schedules.RejectedManualRunHappens` | apps/reports/models.py:341-342 | a daily schedule and a clock for which that save is rejected |
| `Schedules.WindowsTile` | apps/reports/models.py:271-278 | over every run of claims, executions, manual runs and edits each window starts where the one before ended, with start not after end, except that a manual run whose save was rejected is covered again by the next; with none rejected and none abandoned the created jobs tile time |
| `ScheduleStore.Store.ClaimDue` | apps/reports/services/schedules.py:111-134 | succeeds if and only if every selected schedule passes its validator; then each is claimed with its window and no other changes; else nothing changes |
| `ReportJobs.OnlyFailedStartsAreRejected` | apps/reports/models.py:153-173 | in reachable states a save is rejected if and only if a generator starts on a FAILED job, and then the job is unchanged |
| `ReportJobs.CleanMeaning` | apps/reports/models.py:153-173 | the validator by status: no times, a start only, or both in order |
| `ReportJobs.EditMeaning` | apps/reports/serializers.py:199-225 | an edit is refused if and only if it changes the parameters of a PROCESSING job; accepted, the job has what it was given; changed parameters leave it PENDING without file and times, equal ones leave status, file and times |
| `ReportJobs.EditReachesFile` | apps/reports/serializers.py:199-225 | in every run, from an accepted edit to the next, any file was built from the edit's parameters, and from its inputs too if the parameters changed |
| `ReportJobs.EnqueueMeaning` | apps/reports/views.py:87-139 | generate and retry: which jobs they take, and the whole job and queue afterwards |
| `ReportJobs.CancelMeaning` | apps/reports/views.py:142-158 | cancel: the same |
| `ReportJobs.StartMeaning` | apps/reports/services/generator.py:1051-1070 | a generator starts on PENDING jobs only and builds from what the job then says |
| `ReportJobs.FinishMeaning` | apps/reports/services/generator.py:1084-1115 | it leaves the job COMPLETED with its file or FAILED without one, as of now |
| `ReportJobs.StepKeepsInv` | apps/reports/services/generator.py:1049-1124 | every edit, action, generator step and crash keeps file, parameters, timestamps and the single holder consistent |
| `ReportJobs.FilesStayFresh` | apps/reports/serializers.py:199-225 | in every run a job has a file if and only if it is COMPLETED, built from its current parameters; with no crashed generator PROCESSING means exactly one is building |
| `ReportJobs.InputsFreshExactly` | apps/reports/serializers.py:199-225 | template and scope in file and builds stay current if and only if no edit changes them alone while a file or build exists |
| `ReportJobs.StaleInputsHappen` | apps/reports/serializers.py:205-225 | a job moved to another template after completion keeps the first one's file |
| `ReportJobStore.Record.Save` | apps/reports/models.py:175-180 | assigned fields are kept exactly when they pass the validator, else the stored row is back |
| `ReportJobStore.Record.Update` | apps/reports/serializers.py:199-225 | refines the edit step, and in fields: the given parameters and inputs are stored, changed parameters drop the file and leave PENDING, refusal while PROCESSING |
| `ReportJobStore.Record.EnqueueGeneration` | apps/reports/views.py:87-98 | refines the enqueue part of generate and retry |
| `ReportJobStore.Record.Cancel` | apps/reports/views.py:142-158 | refines cancellation, refused unless PENDING |
| `ReportJobStore.Record.StartGeneration` | apps/reports/services/generator.py:1051-1070 | refines the generator's first transaction and snapshots what it will build from |
| `ReportJobStore.Record.CompleteGeneration` | apps/reports/services/generator.py:1084-1095 | refines its second transaction, skipped when cancelled |
| `ReportJobStore.Record.FailGeneration` | apps/reports/services/generator.py:1106-1115 | refines its failure transaction |
| `PollScheduler.Scheduler.EnqueueDuePolls` | collectors/scheduler/tasks.py:48-61 | exactly the supported members of the batch are enqueued, once each, with their next poll after the clock; nothing else changes |
| `PollScheduler.NextPollMeaning` | collectors/scheduler/tasks.py:15-18 | the next polls there can be are exactly those the interval (a minute for none) and a jitter of whole seconds ahead: up to a fifth of it, at least one allowed, ten at most |
| `PollScheduler.BatchMeaning` | collectors/scheduler/tasks.py:42-46 | a batch holds only enabled overdue configurations, and leaves one out only when full of ones at least as overdue |
| `PollScheduler.TickIsAMove` | collectors/scheduler/tasks.py:15-61 | every outcome of a tick is a move of the waiting game that `BoundedWaiting` is about |
| `PollScheduler.PassedOver` | collectors/scheduler/tasks.py:41-61 | a tick that passes a due configuration over moves at least limit - k of those ahead behind it for good |
| `PollScheduler.BoundedWaiting` | collectors/scheduler/tasks.py:31-61 | a due supported configuration with p ahead, at most k of them unsupported, is served within p / (limit - k) + 1 ticks |
| `PollScheduler.SelectedAfterBlockers` | collectors/scheduler/tasks.py:42-46 | a selected configuration has fewer than the limit of unsupported ones strictly more overdue |
| `PollScheduler.BlockedForever` | collectors/scheduler/tasks.py:48-61 | behind at least the limit of strictly more overdue unsupported configurations none is ever selected, in any run of any length, and neither it nor they change |
| `PollScheduler.HealthyDeviceStarves` | collectors/scheduler/tasks.py:57-58 | one unsupported device ahead of a healthy one and batches of one: the healthy one is never selected |
| `PollScheduler.StarvingRunExists` | collectors/scheduler/tasks.py:48-61 | there are such runs of every length, with the healthy device due throughout |
| `Telemetry.BatchAgrees` | collectors/common/telemetry_writer.py:47-66 | appending a batch and upserting it row by row keeps every latest row equal to the last point of its device and metric, repeated metrics included |
| `Telemetry.AgreementMeaning` | collectors/common/telemetry_writer.py:50-66 | agreement column by column: organization, data centre, values, quality, source, raw text and time are those of the last point logged for the device and metric |
| `Telemetry.RowsOnlyForPoints` | apps/telemetry/services/ingestion.py:38-50 | there is a latest row exactly for the devices and metrics with a point |
| `Telemetry.NewestExactly` | collectors/common/telemetry_writer.py:47-66 | appending and upserting a batch keeps every latest value the newest of its log if and only if the batch's last point of each slot is no older than its other points there and than the stored value |
| `Telemetry.OnePointNewestExactly` | apps/telemetry/services/ingestion.py:26-51 | for one point: if and only if it is no older than the stored value of its slot |
| `Telemetry.BackdatedPointWins` | apps/telemetry/services/__init__.py:47-70 | a later write with an earlier time replaces the latest value |
| `Telemetry.Store.StorePoint` | apps/telemetry/services/ingestion.py:26-51 | point and latest row are written and the tables agree |
| `Telemetry.Store.WriteBulk` | collectors/common/telemetry_writer.py:25-67 | all points, then all latest rows; the tables agree |
| `Telemetry.Store.IngestPoints` | apps/telemetry/services/__init__.py:44-72 | interleaved writes end in the same tables |
| `Telemetry.Store.PollSnmp` | collectors/snmp_collector/services.py:158-199 | points of mappings that were read are written even if their evaluation fails; a poll with no success leaves the tables as they were; the tables agree either way |
| `Telemetry.WrittenMeaning` | collectors/snmp_collector/services.py:159-196 | one point for every mapping that was read, in order, whether or not its evaluation failed |
| `Readings.DecodingIsBijective` | collectors/modbus_collector/services.py:98-115 | int16, uint32 and int32 decoding are bijections between big-endian registers and their ranges |
| `Readings.EngineReadsStoredValue` | collectors/common/snmp_normalization.py:110-144 | the engine's priority read returns the stored number: exact for floats, within 1/2 for rounded integers, less than 1 off for truncated ones |
| `Readings.ReadingExactly` | collectors/common/snmp_normalization.py:110-144 | the stored columns read as exactly one number: the scaled value, without its fraction on integer Modbus mappings, rounded half away from zero for integer metrics, 0 or 1 for boolean ones |
| `Readings.ReadingCondition` | apps/alerts/services/engine.py:191-216 | from raw reading to condition: each of the six operators compares that number with the threshold |
| `Readings.RoundingMonotone` | collectors/common/value_converter.py:8-13 | truncation and half-up rounding are monotone |
| `Readings.ReadingMonotone` | collectors/common/snmp_normalization.py:92-105 | for a non-negative scale the stored number is monotone in the raw reading on every path |
| `Readings.ThresholdsAreMonotone` | apps/alerts/services/engine.py:191-216 | end to end, a GT or GTE rule true for a raw reading is true for every larger one, and LT or LTE for every smaller one |

## Left out

- Evaluation and traps lock the alert row they find but not its absence: two evaluations of one rule that overlap in time are outside the model, whose steps are serialized; so are two racing notification inserts, which the database's unique constraint decides.
- Acknowledging and resolving by hand read the row and save it without a lock or transaction; each is one step here, so a write by someone else between the two is not modelled. Escalation, which does the same, is modelled from its earlier reading.
- Each alert row carries its own log, and each atomic block takes one clock reading where the code takes two or three in a row.
- Whether a UPS reading counts as healthy (engine.py:667-685) is a flag of the reading; message texts, snapshots, actors and comments of rule alerts carry no logic and are dropped.
- Deletion of alerts, devices or organizations, and hand edits of alert rows.
- `AlertRule.clean`: its duplicate check and scope checks only restrict which rules exist.
- The rule cache assumes that cache calls do not fail and that a new UUID is new; the "cache-unavailable" namespace and a lost invalidation are outside it.
- RuleCacheStore.Service.SaveRule: invalidates in the same call; the gap between commit and invalidation is a step of its own in `RuleCache`.
- RuleCacheStore.Service.DeleteRule: likewise.
- Delivery makes no liveness claim: a requeued row is PENDING but nothing dispatches it until the periodic queue job picks it up; that job's selection and the synchronous loop are dispatches with or without retries in the machine.
- Senders, channel formatting, an unknown channel that marks itself SENT, and a database error between send and mark.
- NotificationDedupe.Outbox.CreateForAlert: recipients and channel lists are parameters; who receives an alert is access-control logic.
- Years are unbounded, the zone offset is fixed (no daylight saving), and times are whole microseconds.
- ScheduleStore.Store.ClaimDue: the selection, its order and its limit are parameters.
- Schedules.WindowsTile: an execution is one step that finishes before the next claim or manual run, so edits during an execution are not interleaved with it (what a late one does is `LateExecutionTilesExactly`).
- Validation of schedule and job fields other than status and times, recipients normalization, and the mail and text messages of a finished report.
- Report row builders and rendering are one uninterpreted function of parameters and inputs; whether a build works is a parameter.
- PollScheduler.Scheduler.EnqueueDuePolls: the due batch, jitter and clock readings are parameters; queue names and the missing-schema path are dropped.
- Telemetry.Store.StorePoint: the value column (by the value's type) and the raw text are part of the point it is given.
- Telemetry.Store.WriteBulk: payload and quality of each reading are part of its point; the numeric part of that choice is `Readings`.
- Telemetry.Store.IngestPoints: devices and metrics are resolved already; device status, ingest logs and the alert evaluation after each write are separate.
- Readings are exact: float32 decoding, decimal precision limits, text metrics, unparseable values and boolean sources are not covered.
- The choice among several mappings of one metric, device health after failures, and all protocol clients.
- Access scopes, the older evaluator module, the PAC alarm handler, dashboards, audit records, administration and seeding.
