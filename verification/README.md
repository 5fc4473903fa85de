# QuickLink verification

QuickLink is a link shortener. This project models the parts of it that are
protocols, parsers or exact arithmetic, and proves what they keep. It verifies
with `dafny verify dfyconfig.toml` (Dafny 4.11).

## How it is built

Three shapes recur.

* **Runs.** A protocol is a value `World`, a datatype `Event` with one case for
  every stretch of code between two awaits, every database or Redis command, every
  failure and every tick of the clock, and a total function `Apply`: an event that
  cannot happen in a state changes nothing. `Exec` folds `Apply` over any sequence
  of events, so a theorem about `Exec(Init(..), es)` is about every interleaving.
* **Objects.** Where the program changes maps, lists or counters in place there is
  a class with those fields. Each of its methods is proved to do to the fields what
  the function used in the runs does to the value.
* **Texts.** A parser is a function on what is left to read; a class or a loop that
  advances an index is proved to compute it; a printer is its partner.

| files | what they model |
|---|---|
| `LinkCache`, `LinkCacheRuns`, `LinkCacheTiming`, `LinkCacheBus`, `LinkRevisions` | the redirect read cache, its invalidation bus, scheduled revisions |
| `ClickStore`, `ClickAggregates`, `ClickQueueRuns`, `ClickLists` | click persistence, its counters, and the two Redis lists with any number of workers |
| `ClickAdmission`, `ClickAdmissionExamples`, `ClickLeases` | quota units leased from one counter by many instances |
| `CanonicalJson`, `RoutingSnapshots` | canonical JSON text, and the snapshot chain a replica follows |
| `ScimSyntax`, `ScimFilter`, `ScimReading`, `ScimRoundTrip`, `ScimWords`, `ScimParser` | the SCIM filter lexer, grammar, printer, what each word means, and the parser object (section 3.4.2.2 of RFC 7644) |
| `RateLimit`, `RateLimitFleet`, `RateLimitExamples`, `RateLimitMemory` | the sliding-window limiter in memory, in Redis, and with fallback |
| `Idempotency`, `IdempotencyStore` | claims on idempotency keys |
| `Csv` | the CSV reader and writer (section 2 of RFC 4180) |
| `WeeklyHours`, `RuleSchedule`, `RuleScheduleReading`, `RuleScheduleText` | weekly windows, and schedules as text |
| `RewardRules`, `Commissions` | which rule pays, and what a commission becomes under refunds |
| `GraphqlWalk` | depth and cost of a GraphQL operation with fragments |
| `Prelude`, `JsText` | `Option`, and JavaScript's `trim` |

## Where the code does less than its comments say

The model follows the code. Each of these is a concrete run, beside the exact
condition under which the promise does hold.

* No invalidation names a custom-domain path; it is found only through a cached
  entry. Invalidating a host, or a link by its code and id, therefore misses a load
  under way for an uncached path that has already read the old row
  (`HostInvalidationMissesLoad`, `LinkInvalidationMissesLoad`; exactly when:
  `HostInvalidationGap`, and for any ids and hosts `DomainPathGap`).
* A lease granted in one month and dated in the next admits clicks nobody reserved
  (`MonthBoundaryCanOverAdmit`); a step keeps the units balanced exactly when it does
  not straddle two months (`ConservedExactly`).
* A crash can lose more than one lease of 25 units: once clicks are handed back
  (`ReturnsCanFillALeaseBeyondItsSize`), and with no returns at all when a swept lease
  is still being handed back while the process has acquired the next one
  (`SweptLeaseIsLostToo`: 49 units). A step keeps a process at 25 or fewer exactly
  when it does neither (`OneLeaseExactly`).
* A click is turned away after fifty renewals that leave nothing for it, although no
  transaction found the tenant at its limit (`FiftyRenewalsReject`; `RejectsExactly`).
* A handler slower than 30 seconds lets a second one in
  (`SlowHandlerBreaksExclusion`), and a handler that ends in time but whose cleanup
  comes late removes the claim of its successor (`LateCleanupBreaksExclusion`). A
  step opens the way to two active handlers exactly when it is a takeover or a
  cleanup that takes the row from an active handler (`TwoGetInExactly`).
* The Redis limiter takes its time before the script runs. A script that another
  instance's overtakes by 2 ms can admit a third hit into a window with a limit of two
  (`OvertakingAdmitsThree`), and a key that expires while a script is on its way can
  let a second hit into a window with a limit of one (`ExpiryAdmitsTwo`). A script
  counts its window exactly when none of the hits in it has been purged or lost with
  the key since it was admitted (`CountsItsWindowExactly`), and Redis keeps to the
  limit in a run exactly when none of its scripts finds too few hits while a window
  with its clock in it is full (`RedisBoundedExactly`).
* An instance that evicts the key's bucket with hits still in the window admits three
  times the limit (`EvictionAdmitsThree`); an eviction lets no later hit past the limit
  exactly when every hit in the bucket has left the window (`EvictionIsHarmlessExactly`).
* A commission rule that several earlier rules cover only together never pays, and is
  not reported (`CoveredTogetherIsNotReported`; exactly which rules never pay:
  `NeverFiresExactly`).
* The limit of 1024 SCIM tokens is not tested after brackets and parentheses, so a
  filter of 1085 tokens is accepted (`LongFilterIsAccepted`; exactly which texts:
  `FilterTextIsRead`).
* Inside SCIM brackets `and` and `or` have no precedence and nothing may follow a
  leading group (`BracketsHaveNoPrecedence`, `GroupEndsBrackets`); a tree with `not` as a left
  operand there cannot be written at all (`TreesExactly`). An attribute named `not`
  can only be written with a schema URI in front.
* A normalised schedule can be longer than its own limit (`NormalFormCanBeTooLong`).
* A refund reported both before and after payment is taken off twice
  (`ReportedTwiceAcrossPayment`; exactly when: `NetAgainstOwed`).
* With a limit of zero the in-memory limiter answers a wait that is not a number
  (`ZeroLimitDiffers`).
* Day rollups are keyed by link and day glued with `|`; a pair shares its key with
  another exactly when one of the two texts holds that character (`DayKeyCollides`).
* Stripping a byte order mark changes no parsed table, since trimming drops it too
  (`BomIsRedundant`).

## Model

| member | source | states |
|---|---|---|
| LinkCache.KeyTextInjective | src/lib/link-cache.ts:114-122 | Two reads share a cache slot only if they ask for the same code, domain path or revision. |
| LinkCache.EvictedTwice | src/lib/link-cache.ts:226-239 | Two invalidations one after the other evict exactly what one invalidation of both evicts, entries, flights and all. |
| LinkCache.DisplacedMakesRoom | src/lib/link-cache.ts:175-188 | Making room leaves space for one more entry, and drops a live entry only if nothing had expired. |
| LinkCache.StoredWithinBound | src/lib/link-cache.ts:175-192 | Storing keeps the cache within its maximum and its insertion order in step with its keys. |
| LinkCache.RemoveKeepsExact | src/lib/link-cache.ts:152-167 | Removing an entry keeps both reverse indexes exact: a key is listed under an id or host exactly when its cached entry carries it, and no listed set is empty. |
| LinkCache.AddKeepsExact | src/lib/link-cache.ts:143-150 | Adding an entry keeps both reverse indexes exact. |
| LinkCache.LinkCache.DeleteKey | src/lib/link-cache.ts:161-173 | On the mutable maps: one key leaves the cache and both indexes, and its flight becomes stale. |
| LinkCache.LinkCache.EvictLocal | src/lib/link-cache.ts:226-239 | The loops over codes, ids, hosts and index entries evict exactly the reached keys. |
| LinkCache.LinkCache.FlushAll | src/lib/link-cache.ts:241-248 | Everything is dropped and every flight becomes stale. |
| LinkCache.LinkCache.SetCache | src/lib/link-cache.ts:175-192 | Storing makes room first: the old entry, or else all expired ones, or else also the oldest. |
| LinkCache.LinkCache.ReadThrough | src/lib/link-cache.ts:198-212 | A read serves a live entry, joins the flight of its key, or starts one. |
| LinkCache.LinkCache.CompleteLoad | src/lib/link-cache.ts:214-218 | A finished load is stored unless its flight became stale. |
| LinkCacheRuns.ReachableWellFormed | src/lib/link-cache.ts:175-192 | In every reachable state the cache is within its bound and its order lists its keys, each once. |
| LinkCacheRuns.FreshAfterInvalidation | src/lib/link-cache.ts:160-253 | In every interleaving, a read that starts after an invalidation named or reached its key never returns a row older than the one current at the invalidation. |
| LinkCacheRuns.FreshnessIsExact | src/lib/link-cache.ts:198-224 | Every later read is at least as new as a version exactly when neither a live entry nor a registered load holds an older row. |
| LinkCacheRuns.DropUnregisters | src/lib/link-cache.ts:219-221 | Dropping a finished load unregisters that load, and changes no other registration, entry or index. |
| LinkCacheRuns.DroppedLoadIsNotJoined | src/lib/link-cache.ts:198-221 | In every run, once a finished load of a key has been dropped, written back or failed, a read of the key with no live entry starts a new load or joins a later one. |
| LinkCacheRuns.DomainPathGap | src/lib/link-cache.ts:232-238 | An invalidation of any ids and hosts leaves a custom-domain path open to a stale read exactly when the path has no cached entry carrying one of them and an older row sits in a live entry or has been read by a load under way. |
| LinkCacheRuns.HostInvalidationGap | src/lib/link-cache.ts:232-238 | For a host of the path itself: exactly when the path is not cached and a load for it has read an older row. |
| LinkCacheRuns.HostInvalidationMissesLoad | src/lib/link-cache.ts:236-238 | A run in which that happens: the cache goes on serving version 0 after version 1 was invalidated. |
| LinkCacheRuns.LinkInvalidationMissesLoad | src/lib/link-cache.ts:232-235 | The same run with an invalidation of the link's code and id, for a load that had found that very link. |
| LinkCacheTiming.StaleHitBound | src/lib/link-cache.ts:125-141 | Even if every invalidation is lost, an overwritten row is served less than one load time plus 1.3 times the TTL of the present bus state after the overwrite, because bus changes flush. |
| LinkCacheTiming.StaleReadBound | src/lib/link-cache.ts:198-224 | Every row that a read returns, if it was overwritten before the read started, came from a live entry within that bound, or from a load that had read it before it was overwritten and that the run has not dropped. |
| LinkCacheTiming.StoredForItsTtl | src/lib/link-cache.ts:124-129 | A row that is written back lives for its TTL and at most 30 per cent more, or to its cap if that comes first. |
| LinkCacheTiming.OldestGoesFirst | src/lib/link-cache.ts:178-188 | In every run, a live entry makes room for another key only if the cache is full and nothing in it has lapsed, and no entry was stored before it. |
| LinkCacheBus.CleanedIs | src/lib/link-cache-bus.ts:55-62 | Cleaning keeps the usable values, each once. |
| LinkCacheBus.CleanedKeepsOrder | src/lib/link-cache-bus.ts:55-62 | Usable values that all differ come through as they are, in their order. |
| LinkCacheBus.EncodeInvalidation | src/lib/link-cache-bus.ts:68-83 | The messages hold at most 500 keys each and together carry exactly the cleaned targets. |
| LinkCacheBus.DeliveredTogether | src/lib/link-cache-bus.ts:86-100 | Messages delivered one by one evict what their targets evict taken together. |
| LinkCacheBus.OwnMessagesAreDropped | src/lib/link-cache-bus.ts:95 | An instance takes no notice of its own messages. |
| LinkCacheBus.FlushIsDelivered | src/lib/link-cache-bus.ts:96 | A flush from elsewhere empties the cache and makes every load under way stale. |
| LinkCacheBus.OtherMessagesEvict | src/lib/link-cache-bus.ts:97-99 | Any other message from elsewhere evicts its usable targets and nothing more. |
| LinkCacheBus.AnyOrderEvictsSame | src/lib/link-cache-bus.ts:68-100 | Whatever order the messages of one invalidation arrive in, and however often each, another instance ends as if it had evicted the cleaned targets itself. |
| LinkRevisions.AnswerLastsUntilNext | src/lib/link-cache.ts:370-383 | The revision in effect stays the same exactly until the next scheduled one takes effect. |
| LinkRevisions.DestinationIs | src/lib/link-cache.ts:370-383 | The destination at a time is that of a revision with the greatest start not after it, and is missing exactly if all start later. |
| LinkRevisions.CachedRevisionIsInEffect | src/lib/link-cache.ts:367-385 | In every run with an unchanged revision table, a cache hit gives the destination the table gives at the time of the hit. |
| ClickStore.DedupedIds | src/lib/click-ingestion.ts:6 | Deduplication keeps every id, once, and invents nothing. |
| ClickStore.TotalGrowsByTally | src/lib/queue.ts:113-145 | Inserting fresh events raises each total by the number of them its counter is about. |
| ClickStore.CommitKeepsExact | src/lib/queue.ts:83-167 | One transaction keeps every link, day, variant, dimension and usage counter equal to the number of distinct stored events it is about, however ids repeat. |
| ClickStore.CommitStoresWelcome | src/lib/click-ingestion.ts:5 | After a commit every click of the batch whose link has a workspace, and whose address that workspace does not exclude, is stored; stored events are unchanged. |
| ClickStore.CommitAddsOnly | src/lib/privacy-ingestion.ts:20 | A commit stores a new id only for such a click of the batch, and of it exactly the fields its workspace's policy leaves, billed to the link's workspace of the transaction. |
| ClickStore.LastOfIdIsKept | src/lib/click-ingestion.ts:6 | Of clicks with the same id the last one is kept. |
| ClickStore.DimensionKeysAre | src/lib/click-dimensions.ts:27-46 | Countries, devices and referrers are counted under the click's own country, device and referrer, trimmed and cut at 255, or as unknown. |
| ClickStore.OnlyPeopleAreBrokenDown | src/lib/click-dimensions.ts:41 | Clicks of robots count under no dimension; people's, and those of unknown kind, under exactly their keys. |
| ClickAggregates.AggregateClicks | src/lib/queue.ts:57-81 | The grouping loop counts each link and each (link, day). |
| ClickAggregates.CountWorkspaces | src/lib/queue.ts:120-130 | Billable and reserved clicks per workspace. |
| ClickAggregates.MeasuredIsTally | src/lib/queue.ts:148-151 | Billable minus reserved is the number of billable clicks no lease had paid for. |
| ClickAggregates.AggregateDimensions | src/lib/click-dimensions.ts:32-47 | One row per link, day, dimension and key, counting human clicks only. |
| ClickAggregates.DimensionIdInjective | src/lib/click-dimensions.ts:34-36 | Rows of different links, days, dimensions or keys never share an id. |
| ClickAggregates.RowIdsAre | src/lib/click-dimensions.ts:35-44 | A row's id is its link, day, dimension name and key with NUL between them. |
| ClickAggregates.DayKeyCollides | src/lib/queue.ts:72 | A (link, day) pair shares its key with a different pair exactly when the link or the day holds a vertical bar. |
| ClickAggregates.ClickDatabase.PersistBatch | src/lib/queue.ts:83-167 | The whole transaction over mutable tables, for links and days its keys can tell apart, stores and counts exactly what `Committed` does, and switches off exactly the links it added clicks to that are then at their cap. |
| ClickQueueRuns.NoClickIsLost | src/lib/queue.ts:205-304 | In every run with any workers, crashes and failures, a pushed payload is in one of the two lists, or its click is stored, or a step prepared the click when its link had no workspace or its address was excluded, or it is malformed and in the dead-letter list. |
| ClickQueueRuns.FilteredWasUnwelcome | src/lib/click-ingestion.ts:5 | In every run, a click counts as filtered only if a step prepared it under such answers. |
| ClickQueueRuns.EverythingCanBeSettled | src/lib/queue.ts:222-286 | Whatever has happened before, crashes included, one undisturbed worker can go on so that both lists are empty and every payload pushed so far is dealt with. |
| ClickQueueRuns.CountersAreExact | src/lib/queue.ts:222-286 | In every run, with redelivery and recovery by other workers, each counter equals the number of distinct stored events it is about, each transaction being `Committed`. |
| ClickQueueRuns.NothingIsInvented | src/lib/queue.ts:205-304 | Every stored event was pushed, and the dead-letter list holds only pushed payloads. |
| ClickLists.RedisLists.ProcessBatch | src/lib/queue.ts:222-286 | An undisturbed pass takes the items it claimed from the lists, one occurrence each; a failed one leaves the lists holding what they held. |
| ClickLists.SmallBacklogInOnePass | src/lib/queue.ts:229-238 | One pass handles everything both lists hold exactly when that is at most 1000 items. |
| ClickAdmission.GrantIsExact | src/lib/tenant-usage.ts:104-112 | A grant never exceeds the headroom or 25, is zero exactly at the limit, covers the waiting callers when it can, and is one unit near the limit. |
| ClickAdmission.AsksForAllThatWait | src/lib/click-admission.ts:56-72 | In every run, a click that has to wait where no transaction is open opens one that hands the old lease back and asks for as many units as clicks wait there. |
| ClickAdmission.ConservedExactly | src/lib/click-admission.ts:57-138 | A step keeps every unit accounted for exactly when it does not straddle two months. |
| ClickAdmission.UnitsAreConserved | src/lib/click-admission.ts:50-138 | In every run within its months, a bucket equals measured plus spent plus held plus returning plus lost units, handing back is never refused, and reserved clicks never exceed the highest quota. |
| ClickAdmission.QuietBucketIsExact | src/lib/click-admission.ts:123-138 | Once all leases are handed back and nothing was lost, the bucket is exactly what was used. |
| ClickAdmission.RejectsExactly | src/lib/click-admission.ts:87-108 | While no lease transaction has found the tenant at its limit, no click is rejected on arrival, and a waiting one exactly when its fiftieth acquisition has settled and left nothing for it. |
| ClickAdmission.AtLimitRejects | src/lib/click-admission.ts:92-104 | Once a process has finished a grant of nothing, as long as its lease lasts, it does not crash and no click comes back, every click that arrives or goes on there is rejected. |
| ClickAdmission.LapsedLeaseAsksAgain | src/lib/click-admission.ts:92-98 | Once such a lease has lapsed, the next click opens a new transaction and waits. |
| ClickAdmission.HandBacksArrive | src/lib/click-admission.ts:123-138 | In every run inside its months, a hand-back that gets through takes its units off their month and is done; one that fails writes them off. |
| ClickAdmission.UnlimitedAdmits | src/lib/click-admission.ts:75-100 | In every run, for the time an unlimited answer lasts, while the process is granted no lease and does not crash, every click that arrives or goes on there is admitted without a unit. |
| ClickAdmission.NoQuotaAdmits | src/lib/click-admission.ts:75-100 | In every run without a quota, a click that goes on when its acquisition is finished is admitted, at whatever attempt. |
| ClickAdmission.OneLeaseExactly | src/lib/click-admission.ts:22-23 | A step leaves every process with at most 25 units out, in its lease, open transaction and open hand-backs together, exactly when it returns no click to a process with 25 out and grants no more than fits beside what is being handed back. |
| ClickAdmission.CrashStrandsExactly | src/lib/click-admission.ts:22-23 | What a crash adds to a month's lost units is what the process held, was granted or was handing back in that month. |
| ClickAdmission.CrashLosesOneLease | src/lib/click-admission.ts:22-23 | In every run without such a step, a crash at any point loses at most 25 units. |
| ClickAdmission.PlainRunsLoseOneLease | src/lib/click-admission.ts:22-23 | In particular in every run in which no click is returned and no lease is granted to a process that is still handing units back. |
| ClickAdmissionExamples.ReturnsCanFillALeaseBeyondItsSize | src/lib/click-admission.ts:116-120 | A run in which a process holds 26. |
| ClickAdmissionExamples.SweptLeaseIsLostToo | src/lib/click-admission.ts:123-138 | A run without returns, inside one month, in which a crash loses 49. |
| ClickAdmissionExamples.FiftyRenewalsReject | src/lib/click-admission.ts:97-107 | A run after which a click with no attempt left is turned away, although no transaction found the tenant at its limit and nothing was spent. |
| ClickAdmissionExamples.MonthBoundaryCanOverAdmit | src/lib/click-admission.ts:78-80 | A run that admits two clicks on reserved units in one month with a quota of one. |
| ClickLeases.AdmissionState.Take | src/lib/click-admission.ts:50-55 | On the maps: a unit is taken exactly from a live lease of this month with units left. |
| ClickLeases.AdmissionState.AdmitBillableClick | src/lib/click-admission.ts:87-98 | The part before the first await does to its workspace what `Admit` says, and nothing to others. |
| ClickLeases.AdmissionState.ResumeAdmission | src/lib/click-admission.ts:97-113 | One turn of the loop after an await does what `Resume` says. |
| ClickLeases.AdmissionState.FinishAcquire | src/lib/click-admission.ts:70-83 | After the transaction: a new lease, unlimited for a while, or the old lease back. |
| ClickLeases.AdmissionState.SweepExpiredLeases | src/lib/click-admission.ts:123-138 | Every workspace is swept; exactly the units of expired leases with no open transaction are released. |
| CanonicalJson.QuotedSplits | src/lib/routing-config.ts:6-9 | A quoted string followed by anything determines the string and what follows. |
| CanonicalJson.CanonSplits | src/lib/routing-config.ts:5-10 | The text of a value is self-delimiting. |
| CanonicalJson.SortedMembersSorted | src/lib/routing-config.ts:9 | Members come out in strictly increasing key order. |
| CanonicalJson.CanonExactly | src/lib/routing-config.ts:5-10 | Two JSON values have the same canonical text exactly when they are the same up to the order of object keys. |
| CanonicalJson.CanonTexts | src/lib/routing-config.ts:5-10 | Null, booleans and empty values are written as JSON writes them; a single item or member stands between its brackets, key, colon, value. |
| CanonicalJson.EscapesAre | src/lib/routing-config.ts:6 | Inside quotes, quotes, backslashes and control characters get the escapes of JSON, other characters below 128 stand for themselves. |
| CanonicalJson.SurrogatesAre | src/lib/routing-config.ts:6 | A surrogate pair stands for itself, a surrogate alone is escaped. |
| RoutingSnapshots.RoutingLog.Publish | src/lib/routing-config.ts:37-51 | A publication appends one signed snapshot with the next version and the hash of the one before. |
| RoutingSnapshots.AcceptedExactly | src/lib/routing-config.ts:30-35 | A replica accepts a published snapshot exactly when it is later and the configuration just before it is the one the replica holds, up to key order. |
| RoutingSnapshots.OnlyNextIsAccepted | src/lib/routing-config.ts:30-35 | With distinct configurations only the very next snapshot is accepted. |
| RoutingSnapshots.OnlySignedIsAccepted | src/lib/routing-config.ts:23-31 | Nothing is accepted whose content does not hash to what it says, or that is not signed as it says. |
| RoutingSnapshots.CatchesUp | src/lib/routing-config.ts:30-35 | In every run, a replica given the snapshots after its own in order, or all if it has none, ends with the latest, whose version is their number. |
| RoutingSnapshots.VersionNeverFalls | src/lib/routing-config.ts:32 | Whatever is delivered, the replica's version never falls. |
| ScimSyntax.BodyRead | src/lib/scim-filter.ts:39-61 | Any string written with JSON escapes is read back by the lexer. |
| ScimSyntax.SpreadRead | src/lib/scim-filter.ts:31-78 | Tokens written in any layout are read back as they were. |
| ScimReading.PathRead | src/lib/scim-filter.ts:80-89 | A written attribute path is one word, reads back as the path, and is never taken for `not`. |
| ScimReading.ValReads | src/lib/scim-filter.ts:136-155 | Inside brackets, what is printed is read back exactly when it does not nest too deeply. |
| ScimRoundTrip.PrintedIsRead | src/lib/scim-filter.ts:157-191 | `and` binds tighter than `or`, both associate to the left: what is printed with only the needed parentheses is read back, exactly when it does not nest too deeply. |
| ScimRoundTrip.ParenthesesAreAllowed | src/lib/scim-filter.ts:163-165 | Parentheses that are not needed change nothing but the depth. |
| ScimRoundTrip.TreesExactly | src/lib/scim-filter.ts:91-195 | The trees the parser can produce are exactly the valid ones within the depth limit. |
| ScimRoundTrip.BracketsHaveNoPrecedence | src/lib/scim-filter.ts:147-152 | `a and b or c` is `(a and b) or c` outside brackets and `a and (b or c)` inside. |
| ScimRoundTrip.GroupEndsBrackets | src/lib/scim-filter.ts:144-146 | Inside brackets only the closing bracket can follow a leading group. |
| ScimRoundTrip.FilterTextIsRead | src/lib/scim-filter.ts:31-195 | A valid filter written in any layout is parsed back exactly when the text is at most 8192 long, no word, number or string comes after 1024 other tokens, and it is within the depth; it is rejected otherwise. |
| ScimRoundTrip.LongFilterIsAccepted | src/lib/scim-filter.ts:39-75 | A filter of 1085 tokens that is accepted. |
| ScimRoundTrip.AcceptedIsValid | src/lib/scim-filter.ts:91-195 | Whatever text is accepted, its tree is valid. |
| ScimWords.OperatorsAre | src/lib/scim-filter.ts:25 | A word is an operator exactly when it is spelled, in any letter case, `eq`, `ne`, `co`, `sw`, `ew`, `gt`, `ge`, `lt`, `le` or `pr`, and then that one. |
| ScimWords.ValueWordsAre | src/lib/scim-filter.ts:110-122 | The values that are words are exactly `true`, `false` and `null`, in small letters. |
| ScimWords.NumbersAre | src/lib/scim-filter.ts:70 | A number is a sign or none, digits without a needless zero, a fraction or none, an exponent or none. |
| ScimWords.TextIsParsed | src/lib/scim-filter.ts:91-195 | What becomes of tokens written in any layout depends only on the length of the text and on the tokens. |
| ScimWords.ComparisonIsRead | src/lib/scim-filter.ts:157-177 | Dotted names, with or without a schema URI, an operator spelled in any letter case, and its value, in any layout, are read as that comparison. |
| ScimWords.NotIsRead | src/lib/scim-filter.ts:160-162 | `not` in any letter case before a group negates it. |
| ScimWords.AndIsRead | src/lib/scim-filter.ts:178-184 | `and` in any letter case joins its operands, within the depth. |
| ScimWords.OrIsRead | src/lib/scim-filter.ts:185-191 | Likewise `or`. |
| ScimWords.BracketComparisonIsRead | src/lib/scim-filter.ts:124-171 | A path with a comparison in square brackets is read as that comparison on the path's values. |
| ScimWords.BracketChainIsRead | src/lib/scim-filter.ts:147-152 | Inside brackets `and` and `or`, in any letter case, join what is on their left to all that follows. |
| ScimWords.BracketNotIsRead | src/lib/scim-filter.ts:139-143 | Inside brackets, likewise `not` before a group. |
| ScimWords.NothingMayFollow | src/lib/scim-filter.ts:193 | Tokens that follow a complete filter, and do not go on with `and` or `or`, reject it. |
| ScimWords.BlanksAroundAreDropped | src/lib/scim-filter.ts:92-93 | White space around a filter changes nothing, not even its length; white space alone is no filter. |
| ScimParser.Lex | src/lib/scim-filter.ts:31-78 | The lexer's loops compute the tokens of the text. |
| ScimParser.Parser.ValFilter | src/lib/scim-filter.ts:136-155 | The bracket parser, with its index and depth counter, agrees with the grammar. |
| ScimParser.Parser.ParsePrimary | src/lib/scim-filter.ts:157-177 | Likewise for primaries. |
| ScimParser.Parser.ParseOr | src/lib/scim-filter.ts:178-191 | Likewise for the loops over `and` and `or`. |
| ScimParser.ParseScimFilter | src/lib/scim-filter.ts:91-195 | The whole parser computes the outcome the text theorems are about. |
| RateLimit.AtMostLimit | src/lib/rate-limit.ts:53-66 | No window holds more than `limit` admitted hits. |
| RateLimit.AllowedExactly | src/lib/rate-limit.ts:43-76 | With a clock that does not go back, a hit is allowed exactly when fewer than `limit` allowed hits lie in the last window, and the reported remainder is exact. |
| RateLimit.RetryIsExact | src/lib/rate-limit.ts:58-66 | A refused caller that waits as long as it is told is allowed if nobody comes in between; a second less is too short. |
| RateLimit.ImplementationsAgree | src/lib/rate-limit.ts:43-147 | On every history the Redis script and the in-memory limiter give the same allowed, remaining and retry answers, the key's expiry included. |
| RateLimit.ZeroLimitDiffers | src/lib/rate-limit.ts:57-65 | With a limit of zero they do not. |
| RateLimitFleet.CountsItsWindowExactly | src/lib/rate-limit.ts:110-147 | In every run, whatever the order of the scripts, a script allows its hit exactly while it finds fewer than `limit` in its window, never finds more than were admitted there, and finds them all exactly when none of them has been purged, or lost with the key, since it was admitted. |
| RateLimitFleet.BoundKeptExactly | src/lib/rate-limit.ts:110-147 | A script takes some window past the limit exactly when the key's unexpired hits still in its window are fewer than `limit` while a window with its clock in it already holds `limit` admitted hits. |
| RateLimitFleet.RedisBoundedExactly | src/lib/rate-limit.ts:110-147 | In every run, Redis admits at most the limit in every window exactly when none of its scripts is of that kind. |
| RateLimitFleet.RememberingIsEnough | src/lib/rate-limit.ts:110-147 | A script that has forgotten no hit of its window is not. |
| RateLimitFleet.OrderlyRunsForgetNothing | src/lib/rate-limit.ts:116-136 | A run whose scripts run in the order of their clocks, each at once or while the key lives, has forgotten nothing at any of them, and Redis stays within the limit. |
| RateLimitFleet.EvictionIsHarmlessExactly | src/lib/rate-limit.ts:79-91 | After a bucket is evicted, no sequence of later hits takes a window of the instance past the limit, exactly when every hit in the bucket had left the window. |
| RateLimitFleet.FleetAdmitsAtMost | src/lib/rate-limit.ts:100-108 | Whatever pattern of Redis failures, delays and lost replies, as long as scripts have forgotten no hit of their windows and evictions are harmless, Redis admits at most the limit in any window, one instance at most twice the limit, and n instances at most n + 1 times. |
| RateLimitExamples.TwiceTheLimitHappens | src/lib/rate-limit.ts:101-107 | A run in which one instance reaches twice the limit. |
| RateLimitExamples.OvertakingAdmitsThree | src/lib/rate-limit.ts:116-125 | Limit two: a script overtaken by another makes Redis admit three hits in one window. |
| RateLimitExamples.ExpiryAdmitsTwo | src/lib/rate-limit.ts:129 | Limit one: the key expires while a script is on its way, and two hits are admitted in one window. |
| RateLimitExamples.EvictionAdmitsThree | src/lib/rate-limit.ts:79-91 | Limit one: an eviction lets one instance admit three hits in one window. |
| RateLimitMemory.HitKeepsOthers | src/lib/rate-limit.ts:43-51 | The key being hit keeps its bucket, other buckets are unchanged, and a bucket that goes was touched no later than any that stays. |
| RateLimitMemory.NextHitSeesThis | src/lib/rate-limit.ts:43-76 | The next hit on a key finds what this one left in its bucket, and a key without a bucket starts empty. |
| RateLimitMemory.EvictsAtMostOne | src/lib/rate-limit.ts:79-91 | The table stays within its bound, and one hit evicts at most one bucket. |
| RateLimitMemory.InMemoryBackend.Hit | src/lib/rate-limit.ts:43-76 | The method's loops compute the answer and the table. |
| Idempotency.ExclusionExactly | src/lib/idempotency.ts:14-93 | A step keeps the row with the one active handler exactly when it is no takeover or cleanup that takes the row from an active handler. |
| Idempotency.TakeoverAdmitsSecondExactly | src/lib/idempotency.ts:35-42 | A takeover puts a second handler beside the first exactly when the expired row's owner is still active. |
| Idempotency.TwoGetInExactly | src/lib/idempotency.ts:14-93 | A step can be followed, with no further such step, by two handlers active at once exactly when it takes the row from an active handler. |
| Idempotency.OneHandlerAtATime | src/lib/idempotency.ts:14-93 | In every run without such a step at most one handler is active per key. |
| Idempotency.TimelyHandlersExclude | src/lib/idempotency.ts:14-93 | In particular if every handler ends, and its cleanup is over, within the pending time of its claim. |
| Idempotency.HandlersEnd | src/lib/idempotency.ts:80-92 | A handler ends whether or not it has stored its response, and is cleaned up after if it held a claim. |
| Idempotency.StoredResponseSurvives | src/lib/idempotency.ts:53-71 | In such a run a stored response is neither overwritten nor deleted before it expires. |
| Idempotency.KeptIsReplayedExactly | src/lib/idempotency.ts:35-50 | In every run, a request that looks while a response is kept and decides before it expires ends with that response if it is the same request, and is refused otherwise, whatever else happens in between and after. |
| Idempotency.ReplayIsOfTheSameRequest | src/lib/idempotency.ts:44-50 | In every run a replay is a finished response to a request with the same method, path and body hash. |
| Idempotency.SlowHandlerBreaksExclusion | src/lib/idempotency.ts:35-42 | A run with a slow handler in which two handlers run at once. |
| Idempotency.LateCleanupBreaksExclusion | src/lib/idempotency.ts:69-92 | A run in which every handler ends in time, one cleanup comes late, and two handlers run at once. |
| IdempotencyStore.Store.TryClaim | src/lib/idempotency.ts:25-42 | On the table: creating or taking over changes only its key's row, as the event does, and remembers the claim. |
| IdempotencyStore.Store.EndHandler | src/lib/idempotency.ts:85-88 | The end of a handler forgets its claim, so a cleanup happens at most once a request. |
| IdempotencyStore.Store.Cleanup | src/lib/idempotency.ts:69-90 | The delete that follows removes whatever row of its key is pending, and no other. |
| Csv.ParseCsv | src/lib/csv.ts:5-80 | The reader's loop computes `Parsed`. |
| Csv.TableIsRead | src/lib/csv.ts:5-80 | A table in any layout, bare or quoted cells, any line ends, with or without a byte order mark, is read as its rows trimmed, all-blank rows left out. |
| Csv.SerializedIsRead | src/lib/csv.ts:83-110 | Reading what was written gives each cell neutralised then trimmed, all-blank rows left out. |
| Csv.CleanRoundTrip | src/lib/csv.ts:5-110 | A table of trimmed cells that start no formula comes back as it was. |
| Csv.NoTextIsAFormula | src/lib/csv.ts:106-110 | No text is written so that it starts a formula: one that would gets an apostrophe in front, and nothing else is changed. |
| Csv.BomIsRedundant | src/lib/csv.ts:6-7 | Dropping a leading byte order mark changes nothing. |
| WeeklyHours.CoversOnCycle | src/lib/active-hours.ts:73-83 | A minute is covered exactly when it lies in the cyclic interval of one of the start days. |
| WeeklyHours.LocalIsAClock | src/lib/active-hours.ts:56-66 | Local day and minute run like a clock: Thursday at midnight on the first of January 1970, shifted by the offset, minute by minute. |
| WeeklyHours.IsWithin | src/lib/active-hours.ts:69-85 | The loop decides membership in some window; no windows means always. |
| WeeklyHours.NextActiveAt | src/lib/active-hours.ts:87-95 | The first active minute at or after the floored start, found within seven days. |
| RuleSchedule.AddRange | src/lib/rule-schedule.ts:46-49 | The day loop adds exactly the days of the range, over the week's end where it must. |
| RuleSchedule.ReadDays | src/lib/rule-schedule.ts:34-54 | The loop over parts computes the days of the text. |
| RuleScheduleReading.TimesAre | src/lib/rule-schedule.ts:26-32 | The texts read as a time are exactly one or two digits, a colon and two digits, up to 24:00, and as that time. |
| RuleScheduleReading.DaysAre | src/lib/rule-schedule.ts:34-41 | The first three letters of a day's English name, in any case, are read as that day. |
| RuleScheduleReading.BlankChunksAreSkipped | src/lib/rule-schedule.ts:63-67 | A blank chunk stands for no window. |
| RuleScheduleText.FormatRead | src/lib/rule-schedule.ts:57-91 | Parsing what is written for a valid schedule gives the schedule. |
| RuleScheduleText.SchedulesExactly | src/lib/rule-schedule.ts:57-80 | The schedules some text stands for are exactly the valid ones. |
| RuleScheduleText.NormalizedMeansTheSame | src/lib/rule-schedule.ts:83-91 | The normalised text stands for the same zone and windows; normalising again changes nothing exactly when it has at most 400 characters, and fails otherwise. |
| RuleScheduleText.NormalFormCanBeTooLong | src/lib/rule-schedule.ts:87 | An accepted schedule whose normal form is rejected. |
| RuleScheduleText.WithinExactly | src/lib/rule-schedule.ts:112-127 | A readable schedule decides as the active hours of its windows and zone do, which is membership on the cycle of the week; an absent or unreadable one lets every minute through. |
| RuleScheduleText.NormalizingKeepsTheDecision | src/lib/rule-schedule.ts:83-127 | What is stored after normalising lets through exactly the minutes the given text does. |
| RewardRules.MatchRule | src/lib/reward-rules.ts:42-55 | The loop returns the first rule that applies in evaluation order. |
| RewardRules.OrderedIsSorted | src/lib/reward-rules.ts:43-45 | The evaluation order is by priority, then place, and holds each rule once. |
| RewardRules.BeforeIs | src/lib/reward-rules.ts:43-45 | A lower priority comes first, none counts as zero, equal ones keep their places. |
| RewardRules.MatchIsFirst | src/lib/reward-rules.ts:42-55 | The rule that pays applies and comes before every other that does; if none pays, none applies. |
| RewardRules.InvalidRulesAre | src/lib/reward-rules.ts:31-40 | A rule is invalid exactly if its key is blank, it has no values, its amount is negative or not safe, its percentage is above 100, or its band is empty. |
| RewardRules.ExplanationAgrees | src/lib/reward-rules.ts:251-273 | The first entry explained as matched is the rule that pays. |
| RewardRules.ReasonsAreTrue | src/lib/reward-rules.ts:258-272 | The reason given for a rule that does not apply is what keeps it from applying. |
| RewardRules.ShadowsExactly | src/lib/reward-rules.ts:195-201 | The test for shadowing holds exactly when the earlier rule takes every sale the later one could. |
| RewardRules.ReportedIsShadowed | src/lib/reward-rules.ts:193-204 | A report names the first valid rule before the reported one that shadows it. |
| RewardRules.ShadowedNeverFires | src/lib/reward-rules.ts:186-206 | A reported rule never pays, for any metadata and any sale that is not negative or absent. |
| RewardRules.ShadowedIsReported | src/lib/reward-rules.ts:186-206 | Every valid rule that an earlier valid rule shadows is reported. |
| RewardRules.NeverFiresExactly | src/lib/reward-rules.ts:42-55 | A rule never pays, for any metadata and any sale that is not negative, exactly when for every value and sale it would take some rule before it takes them too. |
| RewardRules.CoveredTogetherIsNotReported | src/lib/reward-rules.ts:193-204 | Three rules of which the last never pays and is not reported. |
| RewardRules.RewardIsPaid | src/lib/reward-rules.ts:58-71 | A matched rule, or else the default, pays the least of its share, its cap if that is not negative, and the sale in whole cents; a percentage's share is the whole cents of so many hundredths of a per cent of the sale, a flat share is its amount. |
| RewardRules.RewardIsBounded | src/lib/reward-rules.ts:58-71 | A commission is never negative, never more than the sale or the paying rule's cap, and a percentage is paid in full unless its cap is less, and then its cap is. |
| RewardRules.ResolveReward | src/lib/reward-rules.ts:84-98 | The first scope that matches a rule or has a default decides. |
| Commissions.OwedIsProportional | src/lib/commissions.ts:90-94 | What is owed lies between nothing and the original, never rounds up, and never grows with the refund. |
| Commissions.LastRefundCounts | src/lib/commissions.ts:101-114 | Of growing cumulative totals only the last counts; a repeated refund changes nothing. |
| Commissions.FinalStaysFinal | src/lib/commissions.ts:172-176 | Paid and reversed are final. |
| Commissions.TransitionsAre | src/lib/commissions.ts:172-176 | Approving moves pending rows, paying approved ones, reversing both, each to its own status, and no amount changes. |
| Commissions.NetAgainstOwed | src/lib/commissions.ts:101-114 | In every run amount minus clawback is at most what is owed, with equality exactly unless a reducing refund preceded payment and a refund followed it; then by how much it falls short. |
| Commissions.PayableIs | src/lib/commissions.ts:156 | What is payable is the amount less the clawback, and never less than nothing. |
| Commissions.ReportedTwiceAcrossPayment | src/lib/commissions.ts:104-108 | A run in which the same refund is taken off twice. |
| Commissions.CommissionTable.ApplyRefund | src/lib/commissions.ts:101-114 | On the table: only the conversion's row changes, as `Refund` says. |
| Commissions.CommissionTable.TransitionCommissions | src/lib/commissions.ts:182-200 | Exactly the listed rows of the user in a source status move, the count is theirs, and a second call would move none. |
| GraphqlWalk.Walker.Visit | src/lib/graphql-security.ts:19-26 | The recursive walk ends on every document and adds what `Walk` says. |
| GraphqlWalk.MeasuresWhatIsWrittenOut | src/lib/graphql-security.ts:19-30 | With no circle of fragments, depth and cost are those of the operation with every fragment written out. |
| GraphqlWalk.CircleIsFollowedOnce | src/lib/graphql-security.ts:24 | A fragment that spreads itself is followed once. |
| GraphqlWalk.LimitsAre | src/lib/graphql-security.ts:5-30 | Fields may nest seven deep, each costs one more than its depth, and a cost of at most 80 is allowed. |

## Left out

Assumptions and abstractions:

- Databases and Redis are atomic: a transaction, a statement, a Redis command or the Lua script is one step, and a transaction that throws has rolled back.
- One clock is read by all processes of a run, Redis included; it does not go back. The limiter's script runs at most once a call: a command that the Redis client sends again is not modelled.
- Hashes and signatures are injective; verification of a signature is equality of what was signed.
- Single-flight promises are numbers, so identity of flight objects is equality of numbers.
- Bus messages are values; their JSON text, the retry of a subscription and the statistics counters are not modelled.
- Strings are Unicode scalar values, except in the canonical JSON and SCIM modules, which use UTF-16 code units.
- The lexer's and parsers' error messages; an error is one value.
- JSON numbers and SCIM numbers are their texts; JavaScript's number parsing and printing are not part of this model.
- An address is what `normalizeIp` leaves of it, an exclusion list the set of addresses it covers; of a click, only the fields that are counted, billed or hashed for its address.
- Webhook fan-out, realtime events and cache invalidation sent from inside the click transaction.
- Time zone data: a zone is a fixed offset in whole minutes, and the set of zone names is a parameter.
- Floating point in rewards: cents and priorities are real numbers.
- Cumulative refund totals are taken to grow, and a refund to be atomic with respect to transitions.

Weaker than the source might promise:

- ClickAggregates.ClickDatabase.PersistBatch: requires that no day holds `|` and no link or day holds a NUL character, because the program glues such keys together.
- ClickAdmission.UnitsAreConserved: assumes no step straddles two months; `ConservedExactly` says precisely what a straddling step does.
- ClickAdmission.CrashLosesOneLease: for runs without an overfilling step; `OneLeaseExactly` says precisely which steps those are, `SweptLeaseIsLostToo` that they happen.
- ClickQueueRuns.CountersAreExact: the transaction is `Committed`, which the program's own equals only for links and days `PersistBatch` allows.
- Idempotency.OneHandlerAtATime: for runs in which no takeover or late cleanup takes the row from an active handler; `TwoGetInExactly` says that these steps, and no others, lead to two handlers.
- RateLimitFleet.FleetAdmitsAtMost: for runs whose scripts have forgotten no hit of their windows and whose evictions are harmless; `OvertakingAdmitsThree`, `ExpiryAdmitsTwo` and `EvictionAdmitsThree` show the bound fail otherwise.
- RateLimit.ImplementationsAgree: times and limits are positive.
- RateLimitMemory.InMemoryBackend.Hit: keys are not empty, as every caller builds them with a colon.

Not modelled, mostly easier or outside the core: evaluation of SCIM filters
(`valuesAt`, `compare`), campaigns and weighted variants, concentration
statistics, IP allow-lists and destination health, link chains, bulk edit and
import, click export, the reports, safety heuristics, clients and the user
interface.
