# Verified models of an LLM gateway

This project models the stateful and arithmetic core of the gateway's `controller` and
`common` packages in Dafny and proves what that core is relied on for: per-order locking,
the bounded pool that tests channels, the in-memory rate limiter, the price comparison with
upstream sites, the administration of multi-key channels, top-up amounts, request-body
storage, the Ogg duration scan, user roles and verification codes.

`dafny verify dfyconfig.toml` checks everything. Each module is in a file of its own name.

| module | what it models |
|---|---|
| `OrderLocks` | reference-counted mutexes per trade number, as an interleaving machine over any number of threads |
| `WorkerPool` | the channel test pool: feeder, workers, closer, collector and cancellation, one atomic action at a time |
| `RateLimiter` | the bounded queue per key with its background sweeper |
| `PriceDifferences`, `CandidateSelection` | the difference table against upstream prices, and the choice among catalog offers |
| `KeyText`, `MultiKey`, `KeyAppend` | keys stored as text, positional status maps, renumbering and appending |
| `QuotaMath`, `TopUp` | quota rounding and saturation, top-up bounds, stored order amounts of three gateways |
| `MachineInt` | int64 and its wrap-around |
| `BodyStorage` | memory and disk storage behind one interface, creation from a stream, usage counters |
| `OggScanner` | the page scan that finds the duration of an Opus file |
| `UserRoles` | the role and status effects of the user administration handlers |
| `Verification` | expiring verification codes |

Conventions. Concurrent code is a state machine: `Enabled` and `Act` or `Apply` describe single
steps, `Exec` whole schedules, and the theorems hold for every schedule. Code that updates
objects is a class whose methods are proved equal to a function on values; the theorems are
about that function. Clock readings, random values, the order in which a map is visited and
the outcome of calls into unmodelled code are parameters or arbitrary choices. Float prices
and quotas are `real`; NaN and infinities are explicit where the code tests for them.

Where a promise of the code or its comments does not hold everywhere, the model keeps the
code, a lemma shows a case, and another lemma gives the exact condition:

- Comments of the catalog conversion promise the cheapest non-zero price. The code keeps an
  earlier choice that is dearer by less than 1e-9 (`CloseCostsKeepTheFirst`, exactly when:
  `CheapestIsChosenIff`).
- A comment asks that no rate-limit window exceed the key expiration. One second more is still
  harmless, anything longer is not (`SweeperIsHarmlessIffCovered`).
- Deleting auto-disabled keys when every key is auto-disabled keeps all of them and enables
  them (`DeleteDisabledRemovesThemIffOthersRemain`).
- Creating a channel tests for empty lines before it trims them (controller/channel.go:487-493),
  so a list can hold an empty key. Once a deletion brings it to an end of the list it is lost on
  saving, and statuses, times and reasons shift (`EmptyKeyLosesAStatus`,
  `DeleteDisabledLosesAStatus`, exactly when: `DeleteKeyKeepsTheOthersIff`,
  `DeleteDisabledKeepsTheOthersIff`). Times and reasons can then leave the range of positions
  (`TimeLeavesTheRange`, exactly when: `RangesStayIff`).
- Appending to a stored text of nothing but newlines drops its one empty key
  (`AppendKeepsTheExistingIff`), and appending to one that begins like a JSON array but is none
  drops all its keys (`AppendSeesTheKeysIff`).
- With a fractional quota per unit the advertised maximum can be too low
  (`FractionalUnitExceedsTheMaximum`), and in token mode whole units beyond 2^64 come round to
  small numbers that are credited (`OverflowingAmountsAreAccepted`); exactly when: `BoundIsExactIff`.
- A size limit of the largest int64 overflows when one is added, and nothing is read
  (`CreationIsExactIff`).
- A cleanup subtracts every file it removes, also leftovers that were never counted. While a disk
  storage is open the counters are then wrong, and the file of an open storage is subtracted twice
  (`LeftoverHidesAnOpenStorage`, `CleanedFileIsSubtractedTwice`, exactly when: `UsageIsExactIff`).
- An upstream that sends the word "same" or null can hide its difference (`HiddenDifference`,
  exactly when: `TrueDifferenceIsReportedIff`, `EntryIsExact`).

## Model

| member | source | states |
|---|---|---|
| OrderLocks.StepInv | controller/topup.go:354-383 | every step of every thread keeps the invariant that all threads inside or waiting on a trade number share the one mutex in the table |
| OrderLocks.MutualExclusion | controller/topup.go:354-383 | in every interleaving at most one thread is in the critical section of a trade number, although entries are deleted and re-created |
| OrderLocks.OrdersAreConserved | controller/topup.go:354-383 | in every run the orders whose critical section a thread has entered, the one it is acquiring and those left to do are its initial list, in order |
| OrderLocks.EveryOrderIsEntered | controller/topup.go:354-366 | in every schedule that cannot be extended each thread has entered the critical section of each of its orders, once and in order |
| OrderLocks.TableIsExact | controller/topup.go:355-383 | `refCount` is the number of threads between increment and decrement; outside the create lock an entry exists exactly when that number is positive |
| OrderLocks.UnlockFindsItsMutex | controller/topup.go:369-376 | unlocking always finds the caller's own, locked mutex; the early return and the fatal unlock are unreachable |
| OrderLocks.SomeThreadMoves | controller/topup.go:354-383 | in every state satisfying the invariant with an unfinished thread, some thread can step |
| OrderLocks.NoDeadlock | controller/topup.go:354-383 | a schedule that cannot be extended has finished all threads and emptied the table |
| OrderLocks.QuiescentTableIsEmpty | controller/topup.go:377-382 | when all threads are idle no entry is left |
| OrderLocks.RunsAreBounded | controller/topup.go:354-383 | no schedule is longer than the work the threads start with |
| WorkerPool.StepInv | controller/channel-test.go:852-921 | every action of feeder, workers, closer, collector and cancellation keeps the pool invariant |
| WorkerPool.EachChannelRunsAtMostOnce | controller/channel-test.go:859-901 | for every interleaving and cancellation moment each position enters the callback at most once, and no nil or manually disabled channel does |
| WorkerPool.CancelledStartsNothing | controller/channel-test.go:869-919 | after a cancellation no further call is started and no further progress is reported |
| WorkerPool.SummaryIsTheSumOfAllCalls | controller/channel-test.go:873-921 | on return every started call is completed and each counter is its sum over all calls, even under cancellation |
| WorkerPool.UncancelledPoolIsComplete | controller/channel-test.go:844-921 | without cancellation every eligible channel is run exactly once and the reporter sees 0, 1, ..., total in order |
| WorkerPool.SomeActionIsEnabled | controller/channel-test.go:856-921 | before the pool returns some action other than cancellation is possible |
| WorkerPool.RunsAreBounded | controller/channel-test.go:856-921 | no run is longer than the initial work, provided callbacks return |
| WorkerPool.MaximalRunsReturn | controller/channel-test.go:903-922 | a run that only cancellation could extend has closed the results channel, ended all workers and returned |
| WorkerPool.TotalIsConsistent | controller/channel-test.go:785-829 | over any list of health checks: tested = succeeded + failed, disabled <= failed, disabled + enabled <= tested |
| WorkerPool.CycleSummaryIsConsistent | controller/channel-test.go:785-922 | the summary of a whole cycle of health checks satisfies the same relations |
| WorkerPool.CycleSummaryCountsProbes | controller/channel-test.go:785-922 | each counter of a whole cycle is the number of tests that meet its condition on what the test found: errors, slowness, permission to disable, channel state |
| RateLimiter.InMemoryRateLimiter.constructor | common/rate-limit.go:14-26 | a new limiter has an empty store |
| RateLimiter.InMemoryRateLimiter.Ask | common/rate-limit.go:45-70 | answer and new store are those of the request function, for every key, limit and clock reading |
| RateLimiter.InMemoryRateLimiter.ClearExpiredItems | common/rate-limit.go:28-42 | one sweep, in any key order, deletes exactly the keys whose last request is older than the expiration |
| RateLimiter.SameAnswer | common/rate-limit.go:45-70 | related states answer like the limiter that remembers every accepted request |
| RateLimiter.AgreesWithNaiveLimiter | common/rate-limit.go:28-70 | on every run with a non-decreasing clock and sweeps anywhere, all answers are those of the naive limiter |
| RateLimiter.NoWindowExceedsTheLimit | common/rate-limit.go:28-70 | no window of `duration` seconds holds more accepted requests of a key than its limit |
| RateLimiter.SweeperForgetsTooEarly | common/constants.go:191-218 | a window more than one second longer than the expiration lets the two limiters part |
| RateLimiter.SweeperIsHarmlessIffCovered | common/constants.go:191-218 | agreement on all runs if and only if the window is at most the expiration plus one second |
| PriceDifferences.CollectModels | controller/ratio_sync.go:542-556 | the models that occur in any field of the local data or of a channel |
| PriceDifferences.BuildConfidence | controller/ratio_sync.go:558-565 | confidence is true for every channel and model |
| PriceDifferences.CompareChannel | controller/ratio_sync.go:580-598 | the mark of one channel: its value, "same" or nil, and whether it contradicts the local value |
| PriceDifferences.CompareField | controller/ratio_sync.go:569-626 | whether a model and field are included, and the item with one mark per channel |
| PriceDifferences.CompareAll | controller/ratio_sync.go:567-628 | the full table over all models and fields, for any visiting order |
| PriceDifferences.FindActive | controller/ratio_sync.go:630-639 | the channels with a mark other than nil and "same" somewhere |
| PriceDifferences.PruneRow | controller/ratio_sync.go:642-662 | deleting while iterating in any order leaves exactly the pruned row |
| PriceDifferences.PruneAll | controller/ratio_sync.go:641-667 | the same for the whole table, empty rows removed |
| PriceDifferences.BuildDifferences | controller/ratio_sync.go:536-670 | the result is one function of the input, whatever order maps are visited in |
| PriceDifferences.ActiveIsEverDiffers | controller/ratio_sync.go:630-648 | the channels that survive pruning are exactly those that differ somewhere |
| PriceDifferences.EntryIsExact | controller/ratio_sync.go:536-670 | for distinct channel names: exactly which entries are kept and what each lists |
| PriceDifferences.CleanInputIsExact | controller/ratio_sync.go:536-670 | on clean input an entry is kept iff some channel truly differs; it lists exactly the channels differing somewhere, each with its value, "same" or nil |
| PriceDifferences.PriceIsReportedIff | controller/ratio_sync.go:48-131 | for plain values in the ten compared fields: a channel's value is reported, next to the local one, if and only if the local side has none or a different one, where numbers differ from 1e-9 on and whole numbers count as numbers except in the two text fields |
| PriceDifferences.TrueDifferenceIsReportedIff | controller/ratio_sync.go:536-670 | on any input with distinct names a kept entry has a true difference, and a true difference is kept if and only if a channel that survives pruning has a mark other than "same" there |
| PriceDifferences.UncleanValuesAreHidden | controller/ratio_sync.go:586-598 | no entry is kept where every channel is marked "same", or is null and never differs |
| PriceDifferences.HiddenDifference | controller/ratio_sync.go:586-598 | one channel that sends the word "same" for a model the local data lacks: a true difference that is not reported |
| PriceDifferences.ArrivalOrderIsIrrelevant | controller/ratio_sync.go:536-670 | the order in which channels arrive does not change the result |
| CandidateSelection.BuildCandidate | controller/ratio_sync.go:812-853 | which catalog costs are usable, and that the candidate carries provider, input and output cost, and the cache cost if that is usable |
| CandidateSelection.SelectCandidates | controller/ratio_sync.go:889-918 | the loops choose, for every model, what visiting providers in order chooses, whatever the model order |
| CandidateSelection.ChosenWasOffered | controller/ratio_sync.go:895-918 | a choice exists iff some provider has a valid offer, and it is one of the offers |
| CandidateSelection.TieBreakNeverFires | controller/ratio_sync.go:855-867 | with providers in sorted order the name tie-break never replaces the current choice |
| CandidateSelection.ChosenIsNearlyCheapest | controller/ratio_sync.go:855-918 | the choice is positive if any valid offer is, and costs less than every valid positive offer plus 1e-9 |
| CandidateSelection.NearlyEqualIsNotTransitive | controller/ratio_sync.go:48-53 | three costs of which neighbours are nearly equal and the outer two are not |
| CandidateSelection.CheapestIsChosenIff | controller/ratio_sync.go:855-918 | a cheapest positive offer is chosen if and only if the choice before the first of them is nothing, not positive, or dearer by at least 1e-9 |
| CandidateSelection.GapMakesItCheapest | controller/ratio_sync.go:48-53 | in particular the cheapest is chosen if no other positive cost is within 1e-9 above it |
| CandidateSelection.NearTheCheapestStays | controller/ratio_sync.go:855-867 | a choice less than 1e-9 above the cheapest offer is never replaced |
| CandidateSelection.CloseCostsKeepTheFirst | controller/ratio_sync.go:855-918 | for any providers: a choice made before the first cheapest offer and less than 1e-9 dearer is the final one |
| CandidateSelection.DearerOfferSavesTheCheapest | controller/ratio_sync.go:855-867 | three costs of which the second is within 1e-9 of the cheapest, which is chosen all the same |
| KeyText.SplitOfJoin | model/channel.go:129-151 | splitting the joined text of newline-free keys gives the keys back |
| KeyText.JoinOfSplit | model/channel.go:129-151 | joining the lines of any text gives the text back |
| KeyText.StorageStrips | model/channel.go:129-151 | what storing makes of any newline-free keys: empty keys at both ends are lost, nothing but empty keys comes back as one or none |
| KeyText.KeysSurviveStorage | model/channel.go:129-151 | so they survive storage if and only if neither the first nor the last one is empty |
| KeyText.StoredKeysHaveEnds | model/channel.go:129-151 | keys read from a text have no empty end, unless the text is only newlines |
| MultiKey.Channel.Update | model/channel.go:434-480 | saving re-derives the key count from the text and drops statuses beyond it; an empty text keeps the stored one |
| MultiKey.Channel.DisableKeyAt | controller/channel.go:1251-1293 | accepted exactly for an index in range; new state given |
| MultiKey.Channel.EnableKeyAt | controller/channel.go:1294-1335 | accepted exactly for an index in range; status, time and reason go |
| MultiKey.Channel.EnableAllKeys | controller/channel.go:1336-1359 | all three maps are cleared; counts the former entries |
| MultiKey.Channel.DisableAllKeys | controller/channel.go:1360-1406 | accepted exactly when some key is enabled; the loop disables exactly those |
| MultiKey.Channel.DeleteKeyAt | controller/channel.go:1407-1486 | refusals and new state of `delete_key` |
| MultiKey.Channel.DeleteDisabledKeys | controller/channel.go:1487-1554 | refusals and new state of `delete_disabled_keys` |
| MultiKey.WithoutKey | controller/channel.go:1425-1472 | the loop keeps all other keys and renumbers the three maps |
| MultiKey.WithoutAutoDisabled | controller/channel.go:1488-1540 | the loop keeps the keys that are not auto-disabled, renumbers the maps and counts the rest |
| MultiKey.SurvivorsAreTheKept | controller/channel.go:1488-1540 | the positions that remain are exactly those kept |
| MultiKey.SurvivorsIncrease | controller/channel.go:1488-1540 | the positions that remain keep their order |
| MultiKey.RenumberedAt | controller/channel.go:1425-1472 | renumbering moves the entry of each remaining position to its new index and keeps nothing else |
| MultiKey.KeysAfterDeletion | controller/channel.go:1407-1554 | the list and key count after either deletion, for every list |
| MultiKey.StoredWholeIff | controller/channel.go:1407-1554 | what a deletion keeps is stored whole if and only if neither end of it is empty or nothing was deleted |
| MultiKey.StepKeepsSound | controller/channel.go:1251-1554 | every action, on every list, keeps the key count equal to the number of keys and all statuses known and in range |
| MultiKey.RunsStaySound | model/channel.go:571-586 | the same over every sequence of actions and of keys disabled and enabled automatically |
| MultiKey.RangesStayIff | controller/channel.go:1251-1554 | over every run times and reasons stay in range at every moment, if and only if no deletion keeps a key with a time or reason behind the last stored position |
| MultiKey.NonEmptyEndsSpare | controller/channel.go:1407-1554 | a deletion that leaves nothing, or no empty key at an end, meets that condition |
| MultiKey.TimeLeavesTheRange | controller/channel.go:1425-1472 | a list with an empty key where `delete_key` leaves a time at a position that no longer exists |
| MultiKey.StepKeepsWellFormed | controller/channel.go:1251-1554 | on lists without empty keys every action keeps all three maps in range and the keys non-empty |
| MultiKey.RunsStayWellFormed | controller/channel.go:1251-1554 | so do all runs from such lists |
| MultiKey.DeleteKeyKeepsTheOthersIff | controller/channel.go:1407-1486 | for every list: all other keys keep order, status, time and reason if and only if no key was at the position or neither end of what remains is empty; the list never becomes empty |
| MultiKey.DeleteDisabledKeepsTheOthersIff | controller/channel.go:1487-1554 | for every list: the keys that are not auto-disabled keep order and status, and time and reason if disabled, if and only if some remain and neither end of them is empty |
| MultiKey.DeleteDisabledAcceptedIff | controller/channel.go:1487-1554 | `delete_disabled_keys` is refused if and only if no key is auto-disabled |
| MultiKey.DeleteDisabledRemovesThemIffOthersRemain | controller/channel.go:1487-1554 | for every list: no position stays auto-disabled, and keys are taken away if and only if more than nothing or one empty key remains; with nothing left all keys stay and become enabled |
| MultiKey.EmptyKeyLosesAStatus | controller/channel.go:1425-1472 | a list with an empty key whose neighbour loses its status in `delete_key` |
| MultiKey.DeleteDisabledLosesAStatus | controller/channel.go:1488-1540 | the same in `delete_disabled_keys` |
| MultiKey.StatusAfter | controller/channel.go:1251-1406 | what each of the other actions makes of the status, time and reason of every position, on every list |
| MultiKey.RelayChangesOneKey | model/channel.go:571-586 | an automatic change concerns one position; enabling leaves its time and reason |
| MultiKey.EnablingUndoesDisabling | controller/channel.go:1251-1335 | disabling a key, by hand or automatically, and then enabling it is the same as only enabling it |
| MultiKey.EnablingAnEnabledKey | controller/channel.go:1294-1335 | and enabling a key that has no entries changes nothing |
| MultiKey.CountStatuses | controller/channel.go:1150-1198 | the three reported counts |
| MultiKey.CountsPositions | controller/channel.go:1150-1198 | each count is the number of positions with that status |
| MultiKey.CountsAddUp | controller/channel.go:1150-1198 | they sum to the number of keys if and only if every status is a known one |
| KeyAppend.TrimLines | controller/channel.go:733-739 | the new keys are the trimmed non-blank lines in order |
| KeyAppend.CollectSeen | controller/channel.go:741-748 | the trimmed existing keys |
| KeyAppend.SkipSeen | controller/channel.go:749-760 | new keys that neither exist nor occur earlier |
| KeyAppend.AppendKeys | controller/channel.go:709-768 | the text of an append, whether the stored text is in newline format, a JSON array, or begins like one |
| KeyAppend.AppendSeesTheKeysIff | controller/channel.go:717-731 | an append sees the stored keys if and only if the text does not begin like a JSON array without being one; otherwise it loses all of them |
| KeyAppend.TrimRemovesBlanks | controller/channel.go:735 | trimming takes blanks off both ends and nothing else |
| KeyAppend.TrimUndoesPadding | controller/channel.go:735 | and all of them |
| KeyAppend.AsciiBlanks | controller/channel.go:735 | the blanks of ASCII |
| KeyAppend.AppendAddsEachNewKeyOnce | controller/channel.go:729-763 | each key that a new line has between blanks is added exactly once unless an existing key is the same between blanks; nothing else is |
| KeyAppend.AppendInTwoGoes | controller/channel.go:741-762 | appending in two goes is the same as appending once |
| KeyAppend.AppendOneLine | controller/channel.go:733-762 | one line adds its key at the end, or nothing |
| KeyAppend.AppendIsStored | controller/channel.go:729-763 | the text reads back as existing keys followed by new ones, except exactly when the stored text was only newlines |
| KeyAppend.AppendKeepsTheExistingIff | controller/channel.go:709-769 | the channel stays well-formed; existing keys keep position, status, time and reason and new ones are enabled, if and only if the stored text has more than newlines or nothing is added |
| QuotaMath.SaturationIsMonotone | common/quota_math.go:72-86 | a saturated quota is in range and a larger value never yields a smaller quota |
| QuotaMath.StrictConversionIsExact | common/quota_math.go:72-154 | strict conversion succeeds exactly for values that round strictly inside the range, and is then within one half |
| QuotaMath.TruncationIsExact | common/quota_math.go:72-113 | without rounding the fraction is cut off toward zero, and values that are not strictly inside the range become its ends |
| QuotaMath.RoundVariantsAgree | common/quota_math.go:98-148 | the float and decimal conversions agree, and rounding credits at most one more than truncating |
| TopUp.DivisionIsExact | controller/topup.go:190-199 | cutting off a sixteen-digit decimal quotient is integer division, for every amount and every whole quota per unit up to MaxQuota |
| TopUp.MaximumIs | controller/topup.go:201-217 | the maximum in closed form in both display modes, wrapped around only for a unit above the largest int64 in token mode |
| TopUp.TopUpBoundIsExact | controller/topup.go:190-240 | for every whole quota per unit, both display modes and every amount: validation succeeds iff the credited quota is positive and the amount at most the maximum, and yields that quota |
| TopUp.RefusalNamesTheMaximum | controller/topup.go:230-240 | for every amount a refusal names the maximum exactly when it is positive and exceeded |
| TopUp.FloatDivisionIsExact | controller/topup_waffo.go:211-217 | for amounts below 2^53 the truncated float quotient is integer division |
| TopUp.GatewaysAgree | controller/topup_waffo.go:211-217 | for every validated amount Epay, Waffo and Waffo Pancake store the same amount, the clamps to one change nothing, and settling credits the validated quota |
| TopUp.CreditIsMonotone | controller/topup.go:190-199 | while the whole units fit an int64 a larger amount never credits less, decimal rounding included, in both display modes |
| TopUp.BoundIsExactIff | controller/topup.go:190-240 | for every quota per unit from a billionth on and both display modes the maximum tells which positive int64 amounts are accepted, if and only if it and the amount after it fall on different sides of the limit minus one half and the units of the largest amount do not come round 2^64 to a creditable number |
| TopUp.SecondRoundIsAccepted | controller/topup.go:190-199 | if they do, some amount whose units overflow an int64 is accepted |
| TopUp.OverflowingAmountsAreAccepted | controller/topup.go:190-240 | at 0.4 quota per unit in token mode an amount far above the maximum, and a negative one, are credited 400 |
| TopUp.CurrencyBoundIsExactIff | controller/topup.go:201-240 | in currency mode only the amount after the maximum matters |
| TopUp.FractionalUnitExceedsTheMaximum | controller/topup.go:201-240 | with 0.3 quota per unit an amount above the maximum is accepted |
| BodyStorage.DiskCacheStats.constructor | common/disk_cache_config.go:72-91 | all counters start at zero |
| BodyStorage.DiskCacheStats.DecrementDiskFiles | common/disk_cache_config.go:115-122 | disk counters go down and stop at zero |
| BodyStorage.DiskCacheStats.DecrementMemoryBuffers | common/disk_cache_config.go:131-134 | memory counters go down without a stop |
| BodyStorage.Handle.ReadFull | common/body_storage.go:245-249 | reads exactly the requested bytes and leaves the position behind them |
| BodyStorage.MemoryStorage.Read | common/body_storage.go:62-69 | answer and new state are those of the abstract store |
| BodyStorage.MemoryStorage.Close | common/body_storage.go:80-87 | closes once; only the first close changes the counters |
| BodyStorage.MemoryStorage.NewReader | common/body_storage.go:98-108 | a fresh reader over the whole content at its start, or nothing when closed |
| BodyStorage.MemoryStorage.Perform | common/body_storage.go:62-108 | every operation of the memory backend refines the abstract store, and only a first close changes the counters |
| BodyStorage.DiskStorage.Bytes | common/body_storage.go:225-257 | returns the whole file and leaves the cursor where it was |
| BodyStorage.DiskStorage.Close | common/body_storage.go:214-223 | closes once; only the first close changes the counters |
| BodyStorage.DiskStorage.NewReader | common/body_storage.go:259-275 | a fresh descriptor at the start of the file, or nothing when closed |
| BodyStorage.DiskStorage.Perform | common/body_storage.go:196-275 | every operation of the disk backend refines the abstract store, and only a first close changes the counters |
| BodyStorage.PerformOnBoth | common/body_storage.go:62-275 | for every sequence of operations both backends give the answers of the abstract store and end in the same state, and each is counted out once if it was closed |
| BodyStorage.ReplayAfterUse | common/body_storage.go:98-108 | a reader opened before any operations, closing included, replays the whole content and disturbs neither storage |
| BodyStorage.ContentIsKept | common/body_storage.go:62-275 | no operation changes the content, and after closing there are only closed answers |
| BodyStorage.ReadsGiveTheContent | common/body_storage.go:62-69 | reads of any sizes together give the content from the cursor on, as far as was asked for |
| BodyStorage.SeekFromEndReadsTheTail | common/body_storage.go:71-78 | seeking back from the end and reading gives the tail |
| BodyStorage.SeeksAddUp | common/body_storage.go:71-78 | seeks from the start and from the cursor add up, and one before the start moves nothing |
| BodyStorage.DiskFromTheThresholdOn | common/body_storage.go:286-314 | with disk caching on and room left a body goes to disk if and only if it or its announced length reaches the threshold |
| BodyStorage.MemoryWithoutRoom | common/body_storage.go:286-314 | with it off or without room a body stays in memory |
| BodyStorage.CreateBodyStorage | common/body_storage.go:286-304 | which backend is chosen, what it holds and how it is counted |
| BodyStorage.CreateBodyStorageFromReader | common/body_storage.go:307-348 | the same for a stream; a refusal leaves the counters alone, whichever backend is chosen |
| BodyStorage.CreationIsExactIff | common/body_storage.go:159-194 | streams longer than the limit are refused and all others stored whole, if and only if the limit plus one does not overflow or the stream is empty |
| BodyStorage.Serve | common/body_storage.go:52-348 | creating, closing and cleaning up real storages in any order, and removing files without an owner, takes the counters and the storages through the run of the accounting machine |
| BodyStorage.UsageIsExactIff | common/disk_cache.go:109-138 | over every run of creations, repeated closes and cleanups the counters equal number and size of the open storages at every moment, if and only if no cleanup removes a file, whoever owns it, while a disk storage is open |
| BodyStorage.LeftoverAccountedIff | common/disk_cache.go:129-135 | removing a leftover keeps the counters exact if and only if no disk storage is open, and then only because the clamps fire |
| BodyStorage.LeftoverHidesAnOpenStorage | common/disk_cache.go:129-135 | a leftover removed while one disk storage is open takes that storage out of the counters |
| BodyStorage.ClampsFireIff | common/disk_cache_config.go:115-122 | in every run with exact counters the clamps fire if and only if a leftover is removed |
| BodyStorage.ClampsNeverFire | common/disk_cache_config.go:115-122 | in every run of creations and possibly repeated closes no disk counter would go below zero |
| BodyStorage.ClosingAllReturnsToZero | common/body_storage.go:80-87 | once all storages of a run are closed all counters are zero |
| BodyStorage.CleanedFileIsSubtractedTwice | common/disk_cache.go:129-135 | cleaning and then closing one of two open files leaves the other uncounted |
| BodyStorage.CounterStaysInBudget | common/disk_cache_config.go:170-177 | whatever is closed or cleaned, bodies no longer than announced keep the usage counter within the maximum |
| BodyStorage.DiskBudgetIsKept | common/disk_cache_config.go:170-177 | and as long as no cleanup removes a file while a disk storage is open, the open files themselves |
| OggScanner.OpusDuration | common/audio.go:196-254 | the loop ends on every input, finds what the scan function finds, and divides by 48000 |
| OggScanner.AddUp | common/audio.go:242-245 | the page size is the sum of the segment table |
| OggScanner.GranuleReadsBack | common/audio.go:228-229 | a page with the eight bytes of an int64 has that int64 as its granule position |
| OggScanner.ScanShifts | common/audio.go:207-249 | bytes before the position do not influence the scan |
| OggScanner.ScanPages | common/audio.go:207-249 | well-formed pages are read one after the other, and the scan goes on right behind them |
| OggScanner.LargestIsTheMaximum | common/audio.go:228-232 | the reference value is the maximum of zero and all granule positions |
| OggScanner.ScanFindsTheLargestGranule | common/audio.go:204-253 | on well-formed pages behind a prefix and before a tail in which no page begins, the scan finds the larger of zero and the largest granule position |
| OggScanner.ScanFindsTheLargestOfACutFile | common/audio.go:228-248 | the same when the last page is cut off anywhere behind its header |
| UserRoles.UserTable.ManageUser | controller/user.go:1066-1143 | reply and new table of disable, enable, delete, promote and demote |
| UserRoles.UserTable.CreateUser | controller/user.go:984-1010 | reply and new table; the role must be below the creator's |
| UserRoles.UserTable.UpdateUser | controller/user.go:665-679 | reply and new table; role and status are kept |
| UserRoles.UserTable.DeleteUser | controller/user.go:931-947 | reply and new table of a hard delete |
| UserRoles.UserTable.DeleteOneself | controller/user.go:963-972 | reply and new table; root is refused |
| UserRoles.SucceedsIff | controller/user.go:1066-1143 | exactly which requests succeed, by roles, deletion and action |
| UserRoles.SuccessMeans | controller/user.go:1066-1143 | what a successful request makes of the target's role, status, profile and deletion, and that nobody else changes |
| UserRoles.RootsNeverChange | controller/user.go:1083-1143 | no run of admitted requests changes the set of root users, and every root user stays enabled |
| UserRoles.StepStaysBelow | controller/user.go:363-365 | a non-root actor changes, deletes or creates only users strictly below the actor's role and leaves them strictly below it, self-deletion aside |
| UserRoles.RunSparesTheHigher | controller/user.go:363-365 | over whole runs of actors up to some role below root, users of at least that role stay exactly as they are and nobody joins them |
| UserRoles.OnlyRootMakesAdministrators | controller/user.go:1114-1123 | without root nobody becomes an administrator |
| Verification.VerificationMap.constructor | common/verification.go:74-78 | the map starts empty |
| Verification.VerificationMap.RegisterVerificationCodeWithKey | common/verification.go:35-45 | stores the code and sweeps when the map holds more than ten entries |
| Verification.VerificationMap.VerifyCodeWithKey | common/verification.go:47-56 | accepts exactly a stored, unexpired, equal code |
| Verification.VerificationMap.DeleteKey | common/verification.go:58-62 | removes the entry |
| Verification.VerificationMap.RemoveExpiredPairs | common/verification.go:65-72 | deletes exactly the expired entries, for any visiting order |
| Verification.MapReflectsHistory | common/verification.go:35-72 | the map holds the latest registration of a slot unless a sweep removed it as expired |
| Verification.VerifyFollowsHistory | common/verification.go:47-56 | a code is accepted if and only if the latest undeleted registration for that purpose and key has that code and is less than 600 seconds old |
| Verification.ExpiresAfterTenMinutes | common/verification.go:52-54 | comparing whole seconds is the same as comparing nanoseconds with ten minutes |
| Verification.SweepsAreUnobservable | common/verification.go:65-72 | for every history the swept and the unswept map accept the same codes |
| Verification.ConfusableIff | common/verification.go:16-19 | two purposes can name the same entry if and only if one begins with the other |
| Verification.PurposesInUseAreDistinguished | common/verification.go:16-19 | the two purposes in use are never confused |

## Left out

- JSON arrays of keys: apart from `AppendKeys` the model reads and stores newline format, so it assumes that no stored text, before or after an operation, begins with "[" after trimming.
- KeyText.StorageStrips: does not cover joined keys that read as a JSON array.
- KeyText.KeysSurviveStorage: the same limit applies.
- MultiKey.DeleteKeyKeepsTheOthersIff: does not cover a deletion that leaves a text such as "[1]", which the code then reads as a JSON array.
- MultiKey.DeleteDisabledKeepsTheOthersIff: the same limit applies.
- KeyAppend.AppendKeepsTheExistingIff: is about stored texts in newline format; `AppendSeesTheKeysIff` covers the others.
- Settlement, billing sessions, channel choice, retries and relaying in the `service`, `relay` and `model` packages, except the lines cited above.
- Payment SDK calls, webhooks, signatures, sessions, OAuth, passkeys and two-factor codes.
- HTTP, JSON, Redis, logging and database plumbing; a database update of a struct is taken to skip zero fields, and queries to skip soft-deleted rows.
- WAV, MP3, FLAC, M4A, AIFF and other audio formats, which are single header reads or library calls.
- Exact IEEE arithmetic: prices and quotas are real numbers, except the float quotient of a Waffo order, which is given by its rounding bound.
- Failures of the file system and the reader, short reads, and the fall-back from disk to memory they trigger.
- Concurrency inside a storage or the counters: every method holds a mutex, so steps are sequential.
- Resetting and re-synchronising the disk counters, and the hit counters.
- Cached files of requests, which change the same disk counters and lie in the same directory (service/file_service.go:207-209 and 364-366).
- Paging, filtering and key previews of the key status list: they only read and format what `CountStatuses` covers.
- Sorting itself: the sorted provider list is a parameter of the selection.
- The quota and permission effects of the user handlers, and request validation before them.
- Calling the manage handler without an id, which selects the first row: the model takes the row that the lookup finds.
- PriceDifferences.EntryIsExact: does not cover two channels of the same name, because they overwrite each other in the code.
- TopUp.BoundIsExactIff: is stated for a quota per unit from a billionth to the largest int64; below about 2.4e-10 the maximum itself wraps around. It is about positive amounts, which the minimum top-up leaves.
- TopUp.CurrencyBoundIsExactIff: the same limits apply.
- TopUp.FloatDivisionIsExact: assumes that float division is exact for whole quotients and otherwise within one part in 2^53.
- A quota per unit that is zero or negative: token mode divides by it, and the code only guards the maximum against it.
- Opening a new reader on a storage whose file a cleanup has removed, which fails in the code.
- BodyStorage.CounterStaysInBudget: assumes that usage plus announced size does not overflow an int64.
- UserRoles.UserTable.CreateUser: takes the key of the new row as a parameter and does not model duplicate names.
