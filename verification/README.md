# Gateway core, modelled and verified in Dafny

This project models the parts of the AI gateway whose correctness rests on state kept over
many calls, and proves what those parts promise over every run, every interleaving or every
input. `dafny verify dfyconfig.toml` checks all of it.

| files | what they model |
|---|---|
| `RateLimitSpec.dfy`, `RateLimitRuns.dfy`, `RateLimiter.dfy` | the in-memory sliding-window rate limiter: its meaning, all its runs against a limiter that forgets nothing, and the linked objects that implement it |
| `WorkerPool.dfy` | the bounded pool that tests channels, as the interleavings of a feeder, workers, a closer, a collector and a cancelling caller |
| `Upstream.dfy`, `UpstreamLaw.dfy`, `Scan.dfy` | staging and applying upstream model changes, when detecting again agrees with that, and the cursor scan over all enabled channels |
| `KeyText.dfy`, `MultiKey.dfy`, `MultiKeyChannel.dfy`, `KeyLists.dfy` | a channel that holds many keys: its key text, the key-management actions with the save that ends each of them, the channel object, and listing and appending keys |
| `Admission.dfy` | the admission limiter of plugin protocol observations |
| `BodyOwnership.dfy`, `BodyStorage.dfy` | request bodies: who owns them over all runs and what the usage counters say, and the storage and context objects, whose methods are proved to take the same steps |
| `SheetNames.dfy` | unique sheet names of the usage export |
| `OggScan.dfy` | the page scan that yields the length of an Opus file |
| `Overload.dfy`, `Quota.dfy` | the overload sentinel, and quota arithmetic |
| `Text.dfy`, `Lists.dfy`, `Options.dfy`, `Rounding.dfy` | joining, splitting and trimming text; lists without repetition; optional values; truncation |

State that the program changes in place is a class whose methods are proved against functions
on values; the theorems are about those functions. Clocks, randomness, the database, HTTP and
the outcome of disk and network operations are parameters. Arithmetic that the program does in
floating point is done on reals, and 64-bit widths are written out where they matter.

Results that contradict a plausible reading of the code or its comments:

- The limiter keeps a bucket for 20 minutes, and a comment asks that windows be no longer than
  that (`common/constants.go:217`). Nothing enforces it. `EvictionUnobservableIff` and
  `WindowSafeIff` show that this is exactly the condition, with a run that breaks it otherwise.
- Applying a selection of upstream changes and detecting again need not agree. `ApplyThenDetect`
  gives the exact condition. It fails for an adopted name with a comma, because the stored list
  is split at commas again (`CommaStaysPending`); for an adopted name that is also an ignore
  pattern, because adopting it deletes the pattern (`AdoptedPatternUncovers`, `PatternUncovers`);
  and for an ignored name that starts with `regex:` and does not match itself
  (`IgnoredPatternStays`).
- Deleting the auto-disabled keys of a channel when all are deletes nothing: the save takes the
  empty key text as not given, all keys stay and count as enabled, and the channel is off
  (`DeletingAllKeepsAll`, `SingleKeyDerails`). `ChannelFollowsItsKeys` gives the exact condition.
- The rows left by a deletion are those of the other keys only if their text can be stored: a
  blank line at either end, a line break inside a key, or a text that looks like a JSON array
  spoils it (`DeletionIsExact`).
- Appending keys to a channel whose text starts with a bracket without being an array loses all
  old keys (`BrokenArrayIsLost`, `AppendKeepsKeys`).
- A request body that was cleaned up is lost unless it was replaced before or there was none
  (`CleanedUpIsGone`, `LostUntilReplaced`).
- Usage is truncated before it is compared, so 90.9 does not exceed a threshold of 90
  (`ExceedsIff`).

## Model

| member | source | states |
|---|---|---|
| `RateLimiter.Queue.Append` | common/rate-limit.go:23-33 | appending to the linked queue adds one timestamp behind all others and keeps the chain well formed |
| `RateLimiter.Queue.RemoveExpired` | common/rate-limit.go:36-53 | in place, what stays is exactly the requests still inside the window, in order, and no node is added |
| `RateLimiter.Queue.ReleaseExpiredHeads` | common/rate-limit.go:47-52 | unlinking heads while they are expired leaves exactly the unexpired requests when the newest one is live |
| `RateLimiter.Queue.Clear` | common/rate-limit.go:56-60 | leaves an empty, well-formed queue |
| `RateLimiter.Limiter.TouchEntry` | common/rate-limit.go:135-149 | the bucket of the key, old or new, becomes the most recently used, and the table, the list, every linked queue and the ordering by recency stay consistent |
| `RateLimiter.Limiter.TrimEntry` | common/rate-limit.go:158 | the linked queue of one bucket is trimmed in place; the queues of all other keys, which share no node with it, keep their contents |
| `RateLimiter.Limiter.AppendTo` | common/rate-limit.go:162 | the linked queue of one bucket grows by one request; all other queues keep their contents |
| `RateLimiter.Limiter.Request` | common/rate-limit.go:152-166 | the objects, queues included, move exactly as the specification says and answer as it does; every queue stays a sorted chain with correct head, tail and length |
| `RateLimiter.Limiter.TakeSlot` | common/rate-limit.go:182-188 | a slot is taken exactly if live requests plus slots already taken are below the limit; trimming and touching happen either way |
| `RateLimiter.Limiter.Reserve` | common/rate-limit.go:178-190 | a reservation is handed out exactly if a slot was taken, fresh and not yet completed |
| `RateLimiter.Limiter.ReturnSlot` | common/rate-limit.go:199-210 | the slot is given back, the entry of a key without slots disappears, and a success is appended to the linked queue at the time of completion |
| `RateLimiter.Reservation.Complete` | common/rate-limit.go:194-211 | only the first completion has an effect |
| `RateLimiter.Limiter.DropOldest` | common/rate-limit.go:126-129 | the least recently used bucket leaves the table and the list, its queue is cleared, and no other queue changes |
| `RateLimiter.Limiter.DeleteExpiredEntries` | common/rate-limit.go:107-131 | the walk from the least recently used end drops exactly the keys idle for the whole expiration time |
| `RateLimitSpec.SinceIsSuffix` | common/rate-limit.go:41-52 | filtering a queue by age and cutting off its old front are the same |
| `RateLimitSpec.TouchKeepsValid` | common/rate-limit.go:135-149 | touching keeps the list distinct, complete and ordered by last activity |
| `RateLimitSpec.ActiveKeysArePrefix` | common/rate-limit.go:115-130 | the keys that survive a sweep are a prefix of the list by recency, so the walk may stop at the first active one |
| `RateLimitSpec.EvictDropsIdleOldest` | common/rate-limit.go:115-130 | dropping one idle oldest key and sweeping gives the same as sweeping |
| `RateLimitSpec.EvictStopsAtActive` | common/rate-limit.go:116-124 | if the oldest key is active, the sweep changes nothing |
| `RateLimitSpec.EvictKeepsValid` | common/rate-limit.go:107-131 | a sweep keeps every invariant of the limiter |
| `RateLimitRuns.GrantConserves` | common/rate-limit.go:185-189 | after a grant the table of slots still counts the pending reservations of every key |
| `RateLimitRuns.FinishConserves` | common/rate-limit.go:199-205 | so it does after the first completion of a reservation, and a key without pending ones has no entry |
| `RateLimitRuns.StepKeepsInv` | common/rate-limit.go:107-211 | every call and every sweep keeps validity, the clock order and the conservation of reservations |
| `RateLimitRuns.RunAgrees` | common/rate-limit.go:107-211 | if expiration covers the windows, every run gives the same answers as a limiter that forgets nothing, with sweeps at any time and with stale ticks |
| `RateLimitRuns.EvictionUnobservableIff` | common/constants.go:216-217 | no run can tell that buckets are dropped if and only if no window is longer than the expiration (or nothing expires) |
| `RateLimitRuns.StoredPlusReservedWithinLimit` | common/rate-limit.go:176-190 | in every run that uses one limit for a key, stored requests plus open reservations never exceed it |
| `RateLimitRuns.AcceptedWithinEveryWindow` | common/rate-limit.go:152-211 | in every such run no interval as long as the window holds more accepted requests than the limit |
| `RateLimitRuns.WindowSafeIff` | common/constants.go:216-217 | that holds for all keys, limits and runs if and only if the expiration covers the windows |
| `RateLimitRuns.ProbeBreaksWindow` | common/rate-limit.go:107-166 | the run that breaks it otherwise: ask, sweep at expiration, ask again |
| `WorkerPool.TestChannel` | controller/channel-test.go:923-972 | the counters of one test in closed form: nothing when cancelled, else one success or one failure, and a switch off or on exactly under the stated conditions |
| `WorkerPool.StepConserves` | controller/channel-test.go:1000-1064 | every atomic action keeps each job in exactly one place: at a worker, at the collector, in the sum, or given up |
| `WorkerPool.StepKeepsProtocol` | controller/channel-test.go:999-1049 | every atomic action keeps the channel states, the workers and the collector consistent |
| `WorkerPool.StepKeepsTally` | controller/channel-test.go:1051-1064 | every atomic action keeps the summary equal to the sum of the collected results and the progress reports gapless |
| `WorkerPool.NothingTouchesAClosedChannel` | controller/channel-test.go:999-1049 | in every interleaving nothing is sent on a closed channel and no channel is closed twice |
| `WorkerPool.NoDeadlock` | controller/channel-test.go:977-1065 | in every reachable state that is not finished some goroutine can go on, also after cancellation |
| `WorkerPool.EveryRunTerminates` | controller/channel-test.go:977-1065 | no run is longer than a bound linear in jobs and workers |
| `WorkerPool.EveryStartedTestIsCountedOnce` | controller/channel-test.go:1051-1064 | when the collector returns, every started test is summed exactly once, no job twice, and the counters balance, cancelled or not |
| `WorkerPool.UncancelledRunIsComplete` | controller/channel-test.go:1051-1064 | without cancellation every channel is counted exactly once, the number of tests is the number of channels to be tested, and progress is reported as 0, 1, ..., total |
| `Text.SplitJoin` | model/channel.go:301-306 | splitting a joined list of separator-free entries gives the list |
| `Text.JoinSplit` | model/channel.go:301-306 | joining what was split gives the text |
| `Text.PartsOfJoin` | model/channel.go:301-306 | a stored list reads back as written if and only if its first and last entries are not empty |
| `Text.PartsNotMore` | model/channel.go:187-209 | reading a list back never yields more entries than were written |
| `Text.TrimmedStored` | model/channel.go:301-306 | what is read back of any stored list: the trimmed pieces of its entries |
| `KeyText.ReadTakes` | model/channel.go:187-209 | what is read from a key text needs no more room than the text, and less if it is an array |
| `KeyText.ReadBack` | model/channel.go:187-209 | exactly the empty list and the storable ones are read back as they were joined |
| `Upstream.NormalizeFacts` | controller/channel_upstream_update.go:102-107 | normalized lists are trimmed, free of blanks and repetitions, and unchanged by normalizing again |
| `Upstream.MergeFacts` | controller/channel_upstream_update.go:109-123 | a merge keeps the base in place and adds each missing name once, in order |
| `Upstream.MergeModelNames` | controller/channel_upstream_update.go:109-123 | the loop with its set of seen names computes the merge |
| `Upstream.PendingApart` | controller/channel_upstream_update.go:181-240 | pending additions and removals are disjoint; additions are upstream only, neither redirect targets nor ignored; removals are local only |
| `UpstreamLaw.StoredLocal` | controller/channel_upstream_update.go:997-1002 | the local list read back after an application: the names that stay, in place, then the comma pieces of the adopted ones that they lack |
| `UpstreamLaw.ApplyThenDetect` | controller/channel_upstream_update.go:976-1024 | for any selection: detecting again gives exactly what was left over, additions and removals, if and only if the selection settles; that is, adopted names have no comma or are covered afterwards, of the other names those covered afterwards are those covered before and those just ignored, and no piece of a name with a comma is missing upstream |
| `UpstreamLaw.SettlesWithoutCommas` | controller/channel_upstream_update.go:1004-1008 | without commas the condition is that the new ignore entries cover, of the names not adopted, those covered before and those just ignored |
| `UpstreamLaw.PlainSelection` | controller/channel_upstream_update.go:976-1024 | where no selected name starts with `regex:`, the law holds if and only if no adopted name has a comma |
| `UpstreamLaw.PendingAgainIff` | controller/channel_upstream_update.go:211-226 | exactly which names are pending after an application |
| `UpstreamLaw.CommaStaysPending` | controller/channel_upstream_update.go:976-1024 | an adopted name with a comma is announced as done and is pending again unless the new entries cover it |
| `UpstreamLaw.AdoptedPatternUncovers` | controller/channel_upstream_update.go:1004-1007 | a model hidden only by patterns that were adopted becomes pending, though it was not left over |
| `UpstreamLaw.PatternUncovers` | controller/channel_upstream_update.go:1004-1007 | such an input: the pattern itself is upstream, adopted, and the only entry |
| `UpstreamLaw.IgnoredPatternStays` | controller/channel_upstream_update.go:213-219 | an ignored name that no entry covers, not even itself, is announced as done and is pending again |
| `UpstreamLaw.ApplyAllThenDetect` | controller/channel_upstream_update.go:1043-1105 | applying everything leaves nothing pending if and only if that settles; for names that are no patterns, if and only if none has a comma |
| `UpstreamLaw.SelectionDivides` | controller/channel_upstream_update.go:976-1012 | a selection divides what was staged: every pending addition is adopted, ignored or left over, every pending removal removed or left over, and additions win over removals |
| `UpstreamLaw.AutoSync` | controller/channel_upstream_update.go:539-551 | adopting all keeps the local list in place and stores the comma pieces of the pending names behind it; detecting again gives no additions and the same removals if and only if no pending name has a comma |
| `Upstream.Channel.Check` | controller/channel_upstream_update.go:515-562 | what a check stores: nothing before the interval is over or when fetching fails, else the staged changes, adopted at once if allowed |
| `Upstream.Channel.ApplyUpdates` | controller/channel_upstream_update.go:976-1024 | the answer is the specified outcome of the selection, and the fields of the channel are those of the answer |
| `Scan.PageHasNoGaps` | controller/channel_upstream_update.go:1030-1041 | no enabled channel lies between the cursor and an entry of the page except the entries before it |
| `Scan.ScanChannels` | controller/channel_upstream_update.go:729-817 | the scan visits enabled channels once, in order, without gaps, and all of them unless it was cancelled |
| `MultiKey.EnabledHasAKey` | controller/channel.go:109-136 | after any actions, each ended by its save, an enabled channel still has an enabled key |
| `MultiKey.ForeignOffStays` | controller/channel.go:124-136 | key actions undo only the manual switch-off that notes that all keys are disabled: they never switch on, or relabel, a channel that is off in any other way |
| `MultiKey.SavedShowsTheSame` | model/channel.go:563-608 | a save changes nothing that is shown of a key |
| `MultiKey.StepFollowsIff` | controller/channel.go:1887-2158 | one action, with its save, keeps the channel on exactly while it has an enabled key, if and only if it is not one of the derailing deletions |
| `MultiKey.ChannelFollowsItsKeys` | controller/channel.go:109-136 | along a whole run the channel is on exactly while it has an enabled key, if and only if no deletion of the run derails it: none leaves an enabled channel without text, or one that is off with more keys than survived |
| `MultiKey.LinesDerailOnlyAsText` | model/channel.go:563-608 | on keys kept as lines a deletion derails only if it leaves no text or something that reads as an array |
| `MultiKey.DeletingAllKeepsAll` | model/channel.go:565-575 | deleting the auto-disabled keys when all are: every key stays and counts as enabled, and the channel is off, whatever it was before |
| `MultiKey.EnablingRecovers` | controller/channel.go:1924-1956 | the way back: from any state that is off for lack of keys, enabling one of them switches the channel on, and it follows its keys again |
| `MultiKey.SingleKeyDerails` | controller/channel.go:2095-2158 | the shortest such run: one key, auto-disabled, deleted |
| `MultiKey.SurvivorsShowTheSame` | controller/channel.go:2049-2080 | every surviving key shows the same status, time and reason at its new position |
| `MultiKey.DeletionIsExact` | controller/channel.go:2024-2158 | each of the two deletions picks exactly the keys it should, and the saved channel has exactly the rows of the others, in order, if and only if these can be stored as a text |
| `MultiKey.DeleteDisabledTwice` | controller/channel.go:2095-2158 | after the save none is auto-disabled, and doing it again changes nothing |
| `MultiKeyChannel.Channel.HasEnabledMultiKey` | controller/channel.go:90-107 | finds out whether some key is enabled |
| `MultiKeyChannel.Channel.DisableIfUnavailable` | controller/channel.go:109-122 | switches an enabled channel off, with the reason, if no key is enabled |
| `MultiKeyChannel.Channel.RestoreIfAvailable` | controller/channel.go:124-136 | switches it on again only if it was switched off for that reason |
| `MultiKeyChannel.Channel.Disable` | controller/channel.go:1887-1922 | the whole new state, saved; refused for a missing or impossible index |
| `MultiKeyChannel.Channel.Enable` | controller/channel.go:1924-1956 | the whole new state, saved; refused for a missing or impossible index |
| `MultiKeyChannel.Channel.Update` | model/channel.go:563-608 | what is in the database after a save: an empty key field keeps the stored text, the size is counted anew, statuses beyond it are dropped |
| `MultiKeyChannel.Channel.EnableAllKeys` | controller/channel.go:1958-1978 | the whole new state, saved |
| `MultiKeyChannel.Channel.DisableAllKeys` | controller/channel.go:1980-2022 | the whole new state, saved; refused exactly if none was enabled |
| `MultiKeyChannel.Channel.Survivors` | controller/channel.go:2036-2068 | the loop that renumbers the keys that stay computes the kept keys and their tables |
| `MultiKeyChannel.Channel.Delete` | controller/channel.go:2024-2093 | the whole new state, saved; refused for an impossible index and for the last key |
| `MultiKeyChannel.Channel.DeleteAutoDisabled` | controller/channel.go:2095-2158 | the whole new state, saved, and how many keys were counted as deleted |
| `KeyLists.PagesCoverTheList` | controller/channel.go:1839-1869 | the pages of the key list, one after the other, are the list, for every page size |
| `KeyLists.AppendKeys` | controller/channel.go:1253-1316 | the loop joins the old keys and the trimmed new ones that were not there |
| `KeyLists.NewKeysFacts` | controller/channel.go:1293-1313 | the new keys are exactly the given ones that were not there, once each |
| `KeyLists.AppendKeepsKeys` | controller/channel.go:1253-1316 | the saved text reads as the old keys in their old positions, then the new ones, if and only if the old text was lines or an array and the whole list can be stored, or nothing is left to store |
| `KeyLists.BrokenArrayIsLost` | controller/channel.go:1255-1265 | a text that starts with a bracket without being an array loses its keys: where the new ones can be stored, they are all that is read afterwards |
| `Admission.Limiter.Count` | controller/plugin_protocol_limiter.go:80-131 | counting stage by stage and taking back is the same as checking all four limits first |
| `Admission.Limiter.TryAcquire` | controller/plugin_protocol_limiter.go:65-157 | the limiter takes the step of the run model and stays exact, and a valid permit with a number of its own is given exactly if granted |
| `Admission.Permit.Release` | controller/plugin_protocol_limiter.go:133-156 | the limiter takes the giving-back step, once, and stays exact; the record of every permit with another number is unchanged, so those stay valid |
| `Admission.CountersAreExact` | controller/plugin_protocol_limiter.go:65-157 | after every run each of the four counters is the number of permits held under it, within its limit, and idle keys have no entry |
| `Admission.AdmittedIffBelowAllLimits` | controller/plugin_protocol_limiter.go:65-131 | after every run a valid caller is admitted exactly if the permits held are below all four limits |
| `Admission.ReleaseUndoesAcquire` | controller/plugin_protocol_limiter.go:133-156 | giving a permit back restores the counters exactly, and a refusal does not change them |
| `Admission.ReleaseTwiceIsOnce` | controller/plugin_protocol_limiter.go:133-156 | releasing again changes nothing |
| `BodyStorage.Reader.ReadUpTo` | common/body_storage.go:244-249 | reading chunk by chunk gives what is left, once, in order, up to the limit |
| `BodyStorage.MemoryStorage.Read` | common/body_storage.go:62-69 | reads as the abstract body says: the next bytes, end of file, or an error once closed |
| `BodyStorage.MemoryStorage.Seek` | common/body_storage.go:71-78 | moves the cursor as the abstract body says, and not at all on an error |
| `BodyStorage.MemoryStorage.Close` | common/body_storage.go:80-87 | closes, and takes the body off the counters only the first time |
| `BodyStorage.MemoryStorage.NewReader` | common/body_storage.go:98-108 | a reader of its own from the start, exactly while the storage is open |
| `BodyStorage.DiskStorage.Read` | common/body_storage.go:196-203 | the same meaning as in memory, except for an empty read at the end |
| `BodyStorage.DiskStorage.Seek` | common/body_storage.go:205-212 | the same meaning as in memory |
| `BodyStorage.DiskStorage.Close` | common/body_storage.go:214-223 | the same meaning as in memory, on the disk counters |
| `BodyStorage.DiskStorage.GetBytes` | common/body_storage.go:225-257 | all bytes, wherever the cursor is, and the cursor ends where it was |
| `BodyStorage.DiskStorage.NewReader` | common/body_storage.go:259-275 | a reader of its own from the start, exactly while the storage is open and the file can be opened once more |
| `BodyStorage.Create` | common/body_storage.go:286-304 | keeps exactly the data, on disk exactly if enabled, large enough, affordable and writable |
| `BodyStorage.CreateFromReader` | common/body_storage.go:307-348 | succeeds exactly if the stream is no longer than allowed and can be read and written, and then keeps it byte for byte; reads at most one byte too many; counts nothing on failure |
| `BodyStorage.Context.GetBody` | common/gin.go:41-95 | the context takes the step of the run model; an open storage is handed out again from its start, and a remembered error is repeated |
| `BodyStorage.Context.ReplaceBody` | common/gin.go:112-127 | the context takes the step of the run model; the old storage is closed and a fresh one holds the data |
| `BodyStorage.Context.Cleanup` | common/gin.go:130-137 | the context takes the step of the run model; the storage is closed and forgotten |
| `BodyOwnership.EveryStorageIsOwned` | common/gin.go:41-137 | over every interleaving on any number of requests, with any settings and failures, each slot holds an open storage of its own, every open storage is in a slot, and the counters are exact |
| `BodyOwnership.ClosedExact` | common/disk_cache_config.go:115-134 | closing takes a storage off exactly; the clamps at zero never take effect |
| `BodyOwnership.CleanedUpMeansZero` | common/gin.go:130-137 | once every request was cleaned up, all usage counters are back at zero |
| `BodyOwnership.SlotsHoldTheBody` | common/gin.go:41-127 | after any run a slot holds the last replacement of its body, or exactly what arrived |
| `BodyOwnership.CachedIffReplaced` | common/gin.go:112-127 | over any run a request keeps a replacement exactly if its body was replaced |
| `BodyOwnership.CleanedUpIsGone` | common/gin.go:41-137 | over any run, a body that was stored and cleaned up can be had again by the next call, under any settings and failures, if and only if it was replaced before or the request came without one |
| `BodyOwnership.LostUntilReplaced` | common/gin.go:41-137 | otherwise it stays lost through every further run until it is replaced |
| `BodyOwnership.DiskBudgetHolds` | common/disk_cache_config.go:170-177 | one call at a time and with honest lengths, the cache files together never pass the maximum |
| `SheetNames.DigitsInjective` | controller/analytics.go:371 | different numbers have different numerals |
| `SheetNames.CandidatesDiffer` | controller/analytics.go:368-379 | two numbered candidates differ in every case, however the name was cut |
| `SheetNames.RefusalsAreDistinct` | controller/analytics.go:368-385 | there are never more refused candidates than used names, so the search ends |
| `SheetNames.UniqueName` | controller/analytics.go:362-385 | finds the first candidate that no sheet has in any case; at most 31 characters, not empty, none of the forbidden ones |
| `SheetNames.Workbook` | controller/analytics.go:274-282 | every user gets a usable name and no two are alike in any case |
| `OggScan.PageSize` | common/audio.go:243-247 | adds up the segment table |
| `OggScan.Scan` | common/audio.go:198-256 | the result is the largest granule position at the recognized pages, over 48000 |
| `OggScan.StopsArePages` | common/audio.go:221-251 | on any bytes the scan stops only at page headers, and they do not overlap |
| `OggScan.SkipsJunk` | common/audio.go:221-228 | bytes in which no page starts are passed over |
| `OggScan.StopsAtPages` | common/audio.go:236-250 | on pages laid out one after the other it stops at each of them and nowhere else |
| `OggScan.DurationOfPages` | common/audio.go:198-256 | for pages behind any bytes, the scan stops at exactly the page starts, whatever their payload holds, if and only if no page is recognized among those bytes; the result is then that of the pages themselves |
| `OggScan.LargestGranuleIsMaximum` | common/audio.go:230-234 | which is a maximum of the granule positions and zero |
| `Overload.ExceedsIff` | common/system_monitor.go:110-112 | a usage counts exactly from one full percent above the threshold |
| `Overload.Count` | common/system_monitor.go:100-107 | counts up to three, back to zero on a low sample, and marks from the third on |
| `Overload.Monitor.Tick` | common/system_monitor.go:64-98 | after every round the counters are the capped streaks of the whole history and the status is that of the history |
| `Overload.MarkedIff` | common/system_monitor.go:85-107 | a resource is marked exactly when the last three samples were taken with monitoring on and each exceeded the threshold of its time |
| `Overload.RefusedIff` | common/system_monitor.go:146-160 | a request is refused exactly when a resource is marked, its sample is at most 30 seconds old and exceeds today's threshold; the first one is named |
| `Quota.RoundedIsNearest` | common/quota_math.go:129-142 | rounding gives the nearest integer, halves away from zero |
| `Quota.RoundIsNearestQuota` | common/quota_math.go:129-142 | the charge is the closest amount among all that can be charged |
| `Quota.FromFloatTruncates` | common/quota_math.go:109-121 | truncation never charges more than the value, nor a full unit less, unless clamped |
| `Quota.ConversionsAreMonotone` | common/quota_math.go:86-142 | a larger value is never charged less, infinities included |
| `Quota.StrictFailsIff` | common/quota_math.go:102-148 | the strict forms fail exactly on the values that would be clamped; NaN counts as zero and infinities saturate |
| `Quota.WalletIsExact` | common/quota_math.go:170-175 | wallet amounts pass through double precision unharmed, exactly up to 2^53 - 1 |
| `Quota.DecimalIsRound` | common/quota_math.go:150-162 | decimals are charged like the number they stand for |
| `Quota.NestedIsClose` | controller/channel-test.go:551-559 | three roundings in a row stay within half a unit plus half the model ratio of the exact charge while nothing saturates |
| `Quota.FreeIffRatioIsZero` | controller/channel-test.go:551-559 | a test is free exactly when the model ratio is zero |

## Left out

- `RateLimiter.Limiter.DeleteExpiredEntries`: the list by recency is a sequence of entry objects, not a doubly linked list; the goroutine that calls it on a ticker and the one-time initialization are not modelled.
- `RateLimitRuns.StoredPlusReservedWithinLimit`: calls on one key use one limit and are either all plain requests or all reservations, as in `middleware/model-rate-limit.go`; mixing them, and limits that change during a run, are not covered.
- `WorkerPool.NoDeadlock`: the early return for an empty channel list is outside the model, and at least one worker is started, as the caller ensures.
- `WorkerPool.TestChannel`: the request to the upstream and the rules that classify its errors are parameters.
- `UpstreamLaw.ApplyThenDetect`: regular expressions are a parameter; the staged changes are those of a detection on the same lists.
- `Upstream.Channel.Check`: persisting to the database, fetching from the upstream and the notifications are not modelled.
- `Scan.ScanChannels`: the set of enabled channels does not change during the scan, and a failing query is not modelled.
- `MultiKeyChannel.Channel.Delete`: the JSON parser is a parameter, of which only is used that the values of an array fit into its text; previews of keys, the time of the last status change, database errors and single-key channels are not modelled.
- `KeyLists.AppendKeys`: the new keys are given as a list; their special form for one channel type is not modelled.
- `Admission.Limiter.TryAcquire`: the mutex is not modelled; each call is one step.
- `BodyOwnership.DiskBudgetHolds`: checking for room and adding to the counters is one step; two requests that check at the same moment can pass the maximum together.
- `BodyStorage.Reader.ReadUpTo`: a read returns all it can; short reads and read errors halfway are summed up as one failure of the whole stream.
- `BodyStorage.CreateFromReader`: cache-hit statistics are not modelled.
- `SheetNames.UniqueName`: lower case is a function on characters that leaves spaces, parentheses and digits alone.
- `OggScan.Scan`: only the page scan is modelled, not the Vorbis decoder tried before it, and reads return all that is left of the file up to the size asked for.
- `Overload.Monitor.Tick`: reading the usage from the container or the host is a parameter.
- `Quota.NestedIsClose`: products are taken on reals, so the rounding of double-precision multiplication is not included; tiered billing and priced models are left out.
- The remaining audio formats, relaying, routing, authentication, payments, the settings store and the web interface are not modelled; they would add parsing of foreign formats or single-step updates.
