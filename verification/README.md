# Verification models

Dafny models of the parts of this repository whose correctness depends on more than one function, with proofs
of what they promise. `dafny verify dfyconfig.toml` checks everything.

| component | modules |
|---|---|
| Schema registry: the BACKWARD-compatibility checker, set against JSON Schema validation (draft 2020-12) | `JsonSchema`, `FiniteCover`, `SchemaInclusion`, `SchemaCheck`, `SchemaReport`, `SchemaPointers`, `SchemaSoundness`, `SchemaAlarms`, `SchemaChains`, `SchemaRegistry` |
| Mobile offline queue, its two storages, the sync runner, idempotency keys | `OfflineQueue`, `SyncRunner`, `SyncProtocol`, `IdempotencyKey` |
| Sliding-window rate limiter | `RateLimit` |
| Drift statistics, intercept calibration, version choice | `KsStatistic`, `Psi`, `Calibration` |
| Model registry: its operations, several instances on one file, and the file itself | `ModelRegistry`, `RegistryRuns`, `RegistryFiles` |
| Sessions, in memory and mirrored to Postgres | `Sessions`, `SessionRestart` |
| Password history and lockout, overlapping password changes | `UserPasswords`, `PasswordRaces` |
| Hash-chain appender | `AuditChain` |
| User audit history, SLA breach analytics | `AuditHistory`, `BreachAnalytics` |
| Shared: absent values, insertion-ordered maps, stable sorting | `Options`, `OrderedMap`, `Sorting` |

Objects the source updates in place are classes; each method's contract equates the new state with a function of
the old one, and the lemmas are about that function over whole runs. Clocks, random ids, dispatcher answers and
landing or failing database writes are arguments, so each theorem holds whatever they are. Every lemma is marked
`{:induction false}`: each induction is written out in its body, none is left to the verifier's heuristics.

## Where the code and its own description differ

The models follow the code.

- The compatibility checker says a clean report means that every old payload still validates (`check_compat.py:12-13`).
  That is false as it stands. `SchemaSoundness.NoGap` is what is missing: given a clean report, it holds if and
  only if the promise does (`CleanIsBackwardExactly`). It looks only at the keywords the checker skips, and
  it is computable from the two documents. `ItemTypeNarrowingUnseen`, `EnumBooleanNumberMixUp` and `NewTypeUnseen` are concrete
  misses; an object listed in an enumeration is also taken for the array of its pairs (`FreezeExactly`). A chain of clean steps need not be clean end to end: `SchemaChains.ComposesExactly` says when it is.
- It also says that widening a type is allowed (`check_compat.py:27-28`), but reports integer to number as narrowed:
  `WideningIsReported`. Between bare types that is the one false alarm (`TypeAlarmExactly`); `SchemaAlarms.RealIsBreak` says
  which reported breaks are real.
- Pointers are printed without the escaping of JSON Pointer (RFC 6901, section 3), so a property with a slash in its
  name can print the pointer of another one: `SchemaPointers`.
- `audit_event_log.ts:7-12` says that of two concurrent INSERTs the second fails with "chain broken". The trigger
  fills in a NULL `prev_hash`, and the client always passes NULL, so both land and the chain forks. The client's queue prevents that
  for one client only: `AlwaysStraightExactly`. With several, rows can also link backwards, as an INSERT draws its id before its
  trigger reads: `LaterIdLinksBack`.
- `sessions.ts:4-5` says that revoking removes the record; the code keeps it and adds the id to the denylist.
- The rate limiter keeps one bucket per key whatever the policy, so a short window can make it forget hits a longer one
  still counts: `MixedPoliciesExactly`. `rate_limit.ts:18` promises a wait of at least 1; with a limit of zero or less and no
  live hit the computed wait is not a number, modelled as `None`: `WaitExactly`, `NoWaitAtZeroLimit`.
- Idempotency keys are cut to 64 characters. When kind, resource and actor fill them, every later action of that kind is
  taken for the first: `LongStemDropsActions`. A colon in resource or actor, or a key that reaches the limit, lets two actions share
  it: `KeyIsUniqueExactly`.
- The model registry calls itself thread-safe, and one instance is. Instances share the temporary file's name
  (`registry.py:65-69`): when one opens it while another is between its open and its replace, the registry file can end up
  torn or blank, unless neither has written yet and their texts are equally long (`AlwaysReadableExactly`, `LongerListTears`). And a write from a stale read puts back every entry it does not concern
  (`LostExactly`).
- The reuse rule for passwords (`users.ts:125`) holds for one change at a time. Changes of one user that overlap at an
  `await` can forget a password, or accept the sixth-last: `PasswordRaces.SpacedExactly`.
- The queue's listing sorts with a comparator that answers 1 for equal times both ways round (`offline_queue.ts:107`), so
  the order of equal times is the engine's choice; they are modelled as keeping their stored order.

## Model

| member | source | states |
|---|---|---|
| JsonSchema.Find | infra/schema-registry/scripts/check_compat.py:166-170 | Looking up a listed property: found exactly when some entry has the name, and then with that entry's schema |
| JsonSchema.ValidMeansInhabited | infra/schema-registry/scripts/check_compat.py:12-13 | A schema with a payload is recognised as having one, and so is the payload's kind; the decision inspects the schema only |
| JsonSchema.Example | infra/schema-registry/scripts/check_compat.py:12-13 | Every schema recognised as inhabited has a payload, which this returns |
| FiniteCover.CoversSound | infra/schema-registry/scripts/check_compat.py:12-13 | When the decision says a finite list covers a schema, every payload of the schema is on the list, nested objects and arrays included |
| FiniteCover.CoversEscape | infra/schema-registry/scripts/check_compat.py:12-13 | When it says no, there is a payload that is not on the list |
| SchemaInclusion.IncludesSound | infra/schema-registry/scripts/check_compat.py:12-13 | When the inclusion decision says yes, every payload of the old schema is one of the new |
| SchemaInclusion.Escape | infra/schema-registry/scripts/check_compat.py:12-13 | When it says no, some payload of the old schema is rejected by the new |
| SchemaInclusion.IncludesExact | infra/schema-registry/scripts/check_compat.py:12-13 | The decision holds if and only if every payload valid under the old schema is valid under the new one |
| SchemaCheck.CheckNode | infra/schema-registry/scripts/check_compat.py:187-315 | Appends to the shared list exactly the breaks of the node, in order, and changes nothing already listed |
| SchemaCheck.CheckRequired | infra/schema-registry/scripts/check_compat.py:198-215 | Appends one break per newly required field, in strictly ascending order of the fields |
| SchemaCheck.RequiredInOrder | infra/schema-registry/scripts/check_compat.py:203-205 | The subjects of these breaks ascend, and are exactly the fields that only the new side requires |
| SchemaCheck.CheckProperties | infra/schema-registry/scripts/check_compat.py:228-296 | Visits the old properties in order: removed ones are reported, kept ones compared |
| SchemaCheck.CheckProperty | infra/schema-registry/scripts/check_compat.py:245-296 | Type, enum, object keywords and items of one kept property, recursing under the right pointer |
| SchemaCheck.NodeBreaksExact | infra/schema-registry/scripts/check_compat.py:187-315 | The report is empty if and only if the declarative recursive compatibility relation holds, at any nesting |
| SchemaCheck.FreezeExactly | infra/schema-registry/scripts/check_compat.py:151-156 | Two values freeze alike exactly when Python takes them for the same member: null for null, numbers and booleans by value, texts as they are, arrays element by element, objects key by key, and an object for the array of its pairs by ascending key |
| SchemaCheck.EnumCutExactly | infra/schema-registry/scripts/check_compat.py:143-156 | An enum break exactly when some old member is the same as none of the new ones |
| SchemaCheck.TextEnumCutExactly | infra/schema-registry/scripts/check_compat.py:143-156 | For enumerations of texts: exactly when some old text is not listed in the new one |
| SchemaReport.ReportIsExact | infra/schema-registry/scripts/check_compat.py:187-315 | A break is in the report if and only if its pointer, segment by segment, leads to a violation of its rule, each rule and each level it descends to being stated on the two documents alone: nothing missed, nothing invented |
| SchemaReport.NodeInOrder | infra/schema-registry/scripts/check_compat.py:187-315 | A node's breaks come by required fields, the old properties in document order, undeclared properties |
| SchemaReport.SideInOrder | infra/schema-registry/scripts/check_compat.py:245-296 | A property's breaks come by type, enumeration, object keywords, items |
| SchemaPointers.ReadsBackExactly | infra/schema-registry/scripts/check_compat.py:238 | Split at its slashes, the printed pointer gives back its segments exactly when none of them contains a slash |
| SchemaPointers.EscapedReaderExactly | infra/schema-registry/scripts/check_compat.py:238 | A reader that also turns back JSON Pointer's escapes gets them exactly when none contains a slash, ~0 or ~1 |
| SchemaPointers.TextIsExact | infra/schema-registry/scripts/check_compat.py:187-315 | With slash-free property names, a printed line is in the report exactly when its text leads to a violation of its rule |
| SchemaPointers.TextsTellApart | infra/schema-registry/scripts/check_compat.py:187-315 | Then two breaks print the same pointer exactly when they have the same one |
| SchemaPointers.SlashedNamesCollide | infra/schema-registry/scripts/check_compat.py:238 | For any two names, a property whose name spells the path of a nested one makes two different breaks print alike |
| SchemaSoundness.NoGapDecides | infra/schema-registry/scripts/check_compat.py:187-315 | On a clean comparison, the conditions the checker skips are exactly what inclusion still needs, at roots, items and properties |
| SchemaSoundness.CleanIsBackwardExactly | infra/schema-registry/scripts/check_compat.py:12-13 | Given a clean report, every old payload is a new payload if and only if there is no gap |
| SchemaSoundness.PlainIsSound | infra/schema-registry/scripts/check_compat.py:187-315 | On a fragment given by conditions on the two documents, a clean comparison carries over every payload |
| SchemaSoundness.ItemTypeNarrowingUnseen | infra/schema-registry/scripts/check_compat.py:289-296 | Narrowing the type of array elements is not reported and rejects old payloads |
| SchemaSoundness.EnumBooleanNumberMixUp | infra/schema-registry/scripts/check_compat.py:143-156 | Replacing the enum value 1 by true is not reported and rejects old payloads |
| SchemaSoundness.NewTypeUnseen | infra/schema-registry/scripts/check_compat.py:134-140 | A type keyword that only the new side has is not reported and rejects old payloads |
| SchemaAlarms.RealIsBreak | infra/schema-registry/scripts/check_compat.py:187-315 | At any depth: a newly required field, a closed open object, a removed property, a narrowed type or a cut enum, each under its stated condition, is reported and rejects an old payload |
| SchemaAlarms.TypeAlarmExactly | infra/schema-registry/scripts/check_compat.py:134-140 | Between bare types, a narrowing is reported without a rejected payload exactly when only integer went and number covers it |
| SchemaAlarms.WideningIsReported | infra/schema-registry/scripts/check_compat.py:27-28 | Widening integer to number is reported although every old payload validates |
| SchemaAlarms.RemovalIsReported | infra/schema-registry/scripts/check_compat.py:230-241 | Removing a property from an object that stays open is reported although every old payload validates |
| SchemaChains.SelfIsClean | infra/schema-registry/scripts/check_compat.py:187-315 | Checking a schema against itself reports nothing |
| SchemaChains.CleanComposes | infra/schema-registry/scripts/check_compat.py:134-140 | Clean comparisons compose when the middle version drops no keyword the first one had |
| SchemaChains.ComposesExactly | infra/schema-registry/scripts/check_compat.py:187-315 | And only then: the middle version keeps what the first says if and only if every clean successor of it is a clean successor of the first |
| SchemaChains.ReportsComposeExactly | infra/schema-registry/scripts/check_compat.py:187-315 | The same of whole reports |
| SchemaChains.DroppedTypeExactly | infra/schema-registry/scripts/check_compat.py:134-140 | A type dropped by the middle version is reported end to end exactly when the last version puts back a narrower one |
| SchemaRegistry.GroupVersions | infra/schema-registry/scripts/check_compat.py:111-117 | Each topic's files, sorted by version, and no other topic |
| SchemaRegistry.TitlesExact | infra/schema-registry/scripts/check_compat.py:111-117 | The topics are those of the files, each once, by first appearance |
| SchemaRegistry.VersionsExact | infra/schema-registry/scripts/check_compat.py:111-117 | A topic's group holds each of its files as often as read, by ascending major, minor and patch number, equal versions as read |
| SchemaRegistry.CheckPair | infra/schema-registry/scripts/check_compat.py:318-328 | The breaks of one pair, labelled with topic and versions |
| SchemaRegistry.CheckRegistry | infra/schema-registry/scripts/check_compat.py:333-340 | The breaks of all consecutive versions of all topics, in order |
| SchemaRegistry.RegistryReportExact | infra/schema-registry/scripts/check_compat.py:318-340 | A break is in the report exactly when two consecutive versions of some topic show that violation, labelled with topic, older and newer version |
| SchemaRegistry.ChainIsSound | infra/schema-registry/scripts/check_compat.py:333-340 | Along a clean chain without gaps, a payload valid at version i is valid at every later version j |
| SchemaRegistry.TopicIsBackward | infra/schema-registry/scripts/check_compat.py:333-340 | For a clean registry without gaps: of any two files of a topic, every payload of the one with the earlier version validates against the other |
| OfflineQueue.InMemoryOfflineQueue.EnqueueAction | mobile/src/sync/offline_queue.ts:84-101 | An already queued key returns the stored action and changes nothing; a new one is appended, pending |
| OfflineQueue.EnqueueExactly | mobile/src/sync/offline_queue.ts:84-101 | A new key goes to the end, pending, untried and without error; a known one and all others keep what they have |
| OfflineQueue.InMemoryOfflineQueue.ListActions | mobile/src/sync/offline_queue.ts:103-109 | By enqueue time, each stored action of the status exactly as often as it is stored; equal times in stored order |
| OfflineQueue.ListingDetermined | mobile/src/sync/offline_queue.ts:103-109 | These promises leave one possible listing |
| OfflineQueue.InMemoryOfflineQueue.UpdateAction | mobile/src/sync/offline_queue.ts:111-117 | Patches the stored action in its place, or returns None and changes nothing |
| OfflineQueue.UpdateExactly | mobile/src/sync/offline_queue.ts:111-117 | Of the one entry, in its place, the fields named change and no others; an unknown key changes nothing |
| OfflineQueue.InMemoryOfflineQueue.RemoveAction | mobile/src/sync/offline_queue.ts:119-121 | Removes the key and says whether it was there |
| OfflineQueue.RemoveExactly | mobile/src/sync/offline_queue.ts:119-121 | Takes out the one entry and keeps the others in order; an unknown key changes nothing |
| OfflineQueue.TallyStatuses | mobile/src/sync/offline_queue.ts:123-132 | One pass counts, for each status, the actions that have it |
| OfflineQueue.AsyncStorageOfflineQueue.ReadAll | mobile/src/sync/offline_queue.ts:167-180 | The stored list as a map; an unreadable cell reads as empty and is removed |
| OfflineQueue.AsyncStorageOfflineQueue.EnqueueAction | mobile/src/sync/offline_queue.ts:187-204 | Read all, add unless the key is known, write all |
| OfflineQueue.AsyncStorageOfflineQueue.ListActions | mobile/src/sync/offline_queue.ts:206-212 | The stored actions of a status by enqueue time |
| OfflineQueue.AsyncStorageOfflineQueue.UpdateAction | mobile/src/sync/offline_queue.ts:214-222 | Read all, patch, write all; nothing is written for an unknown key |
| OfflineQueue.AsyncStorageOfflineQueue.RemoveAction | mobile/src/sync/offline_queue.ts:224-229 | Read all, delete, and write only when something was deleted |
| OfflineQueue.ListRoundTrip | mobile/src/sync/offline_queue.ts:167-185 | Writing the map as a list and reading it back gives the same map in the same order |
| OfflineQueue.StorageRefines | mobile/src/sync/offline_queue.ts:79-246 | For every sequence of calls whose patches keep the key, both storages return the same results, order included |
| OfflineQueue.RekeyingIsSeen | mobile/src/sync/offline_queue.ts:214-222 | The condition is needed: a patch that changes the key of a stored action makes the storages answer differently |
| SyncRunner.Runner.Drain | mobile/src/sync/offline_queue.ts:310-386 | The stored queue and the report after a drain, for every dispatcher and clock |
| SyncRunner.DrainSettles | mobile/src/sync/offline_queue.ts:318-381 | Each pending action ends delivered and gone, pending with one retry more, or failed for good, by its own outcome; other entries are untouched |
| SyncRunner.DrainOutcomes | mobile/src/sync/offline_queue.ts:318-381 | What a drain leaves of each pending action, outcome by outcome: gone if delivered; final at once with its retries as they were and the message if the error is permanent; else one retry more, pending below the limit and final at it, each with its error text and the time of the attempt |
| SyncRunner.DrainCounts | mobile/src/sync/offline_queue.ts:312-383 | Each counter of the report is the number of actions that met that outcome |
| SyncRunner.DrainConserves | mobile/src/sync/offline_queue.ts:312-385 | attempted = all that was pending = succeeded + retried + failed_permanent, and remaining_pending = retried |
| SyncRunner.DrainSpends | mobile/src/sync/offline_queue.ts:343-381 | The retries left to all pending actions together fall by at least one per attempt |
| SyncRunner.DrainsExhaust | mobile/src/sync/offline_queue.ts:343-381 | After as many drains as retries are allowed, with no enqueue between them, nothing is pending |
| SyncProtocol.DrainIsARun | mobile/src/sync/offline_queue.ts:310-386 | The step machine, left undisturbed, stores what the drain loop stores |
| SyncProtocol.DispatchIsBounded | mobile/src/sync/offline_queue.ts:343-381 | Over every run with crashes between any two steps: at most maxRetries dispatches per enqueue of a key |
| SyncProtocol.NothingIsLost | mobile/src/sync/offline_queue.ts:318-381 | At-least-once: of the times a key was enqueued, all but the one still stored had a dispatcher return true |
| SyncProtocol.LeavesOnlyDelivered | mobile/src/sync/offline_queue.ts:325-331 | An action leaves storage only in the step that follows its own dispatcher's true |
| SyncProtocol.AtMostOneInFlight | mobile/src/sync/offline_queue.ts:318-323 | A drain has at most one action in flight; any other in_flight action was left by a crash |
| SyncProtocol.DispatchFollowsEnqueue | mobile/src/sync/offline_queue.ts:103-109 | Dispatches inside a drain follow enqueue times; under a strictly increasing clock no two are equal |
| IdempotencyKey.KeysAreInjective | mobile/src/sync/offline_queue.ts:393-402 | Uncut keys from colon-free parts determine kind, resource, actor and time |
| IdempotencyKey.KeyReadsBack | mobile/src/sync/offline_queue.ts:393-402 | A key has at most 64 characters; uncut, of parts without colons, it reads back as kind, resource, actor and time in that order, and cut it begins such a text |
| IdempotencyKey.KeyIsUniqueExactly | mobile/src/sync/offline_queue.ts:393-402 | The key of a colon-free kind is shared with no other action of a colon-free kind and equally long time, cut or not, if and only if resource and actor have no colon and the key is shorter than 64 characters |
| IdempotencyKey.TimesToldApart | mobile/src/sync/offline_queue.ts:393-402 | Two times give two keys exactly when they differ before the cut |
| IdempotencyKey.LongStemDropsActions | mobile/src/sync/offline_queue.ts:393-402 | A stem of 64 characters makes the queue take a later action for the first and drop it |
| RateLimit.RateLimiter.Take | services/auth-svc/src/rate_limit.ts:35-59 | Answers as the run of calls so far determines, whatever came before |
| RateLimit.RejectedExactly | services/auth-svc/src/rate_limit.ts:35-59 | Rejected exactly when the full unpruned history has `limit` accepted hits in the window, if no earlier call pruned further |
| RateLimit.RejectionIsJustified | services/auth-svc/src/rate_limit.ts:40-54 | With any clock and any policies, a rejection is always justified by the full history |
| RateLimit.RemainingExactly | services/auth-svc/src/rate_limit.ts:35-59 | `remaining` is the number of times an accepted call could be repeated at once (any number, if the window is not positive); a rejected one is told there are none |
| RateLimit.MixedPoliciesExactly | services/auth-svc/src/rate_limit.ts:35-59 | Under any policies and a clock that does not go back: accepted exactly when fewer than `limit` hits lie beyond the largest cutoff used so far, hence wrong exactly when that hides enough live hits |
| RateLimit.ShortWindowHidesHit | services/auth-svc/src/rate_limit.ts:38-48 | For all such window lengths, a short window makes the limiter accept a call whose longer window is full |
| RateLimit.WaitExactly | services/auth-svc/src/rate_limit.ts:18 | A rejected call is given a wait, of at least 1, exactly when the limit is positive or some hit is live |
| RateLimit.NoWaitAtZeroLimit | services/auth-svc/src/rate_limit.ts:40-52 | With a limit of zero or less a first call is rejected with no wait |
| RateLimit.SteadyDecide | services/auth-svc/src/rate_limit.ts:35-59 | With a non-decreasing clock and one policy per key, every answer is that of the full history |
| RateLimit.WindowSafety | services/auth-svc/src/rate_limit.ts:35-59 | Every interval (x, x + windowMs] holds at most `limit` accepted calls |
| RateLimit.RetryAfterExact | services/auth-svc/src/rate_limit.ts:40-52 | With no accept in between, a call retry_after_sec later is accepted and one a whole second earlier is not |
| RateLimit.RejectionsAreInert | services/auth-svc/src/rate_limit.ts:30-34 | Erasing any rejected calls from a run changes no other answer |
| KsStatistic.CdfIsEcdf | ml/monitoring/drift.py:124-125 | Bisection on the sorted sample gives the fraction of the unsorted one that is at most x |
| KsStatistic.KsIsDistance | ml/monitoring/drift.py:115-126 | For samples as given, NaN entries left out: the maximum over the merged grid is the supremum over all reals of the distance of their distribution functions, and is attained |
| KsStatistic.CleanKeeps | ml/monitoring/drift.py:120-121 | Dropping NaN keeps each number exactly as often as it is there |
| KsStatistic.KsInUnit | ml/monitoring/drift.py:115-126 | It lies in [0, 1], empty samples included |
| KsStatistic.KsSymmetric | ml/monitoring/drift.py:115-126 | It is symmetric |
| KsStatistic.KsZero | ml/monitoring/drift.py:115-126 | It is zero exactly when the two distribution functions agree everywhere, or one sample has no number |
| KsStatistic.ClassifierKsIsBestSeparation | ml/pipelines/train_pd.py:126-135 | No score threshold separates the shares of the two classes better than the training statistic says, and one does as well; zero if a class is empty |
| Psi.QuantilesSpan | ml/monitoring/drift.py:56-57 | Quantiles ascend from the least element of the sample to the greatest |
| Psi.QuantileExactly | ml/monitoring/drift.py:56-57 | A quantile weighs the two elements around its position by how far they are from it |
| Psi.EdgesCoverTheLine | ml/monitoring/drift.py:48-63 | For a non-empty reference the edges increase strictly from minus to plus infinity |
| Psi.EdgesAreQuantiles | ml/monitoring/drift.py:48-63 | The finite edges are the quantiles strictly between the least and the greatest element |
| Psi.OneBin | ml/monitoring/drift.py:68-69 | Every real falls in exactly one bin |
| Psi.BinExactly | ml/monitoring/drift.py:68-69 | A real's bin is numbered by how many inner edges are at most that real |
| Psi.CountsSumToSize | ml/monitoring/drift.py:68-69 | Bin counts sum to the sample size |
| Psi.PsiSumSign | ml/monitoring/drift.py:72-76 | The signed sum is never negative, and zero exactly when all smoothed fractions agree |
| Psi.PsiIsDivergence | ml/monitoring/drift.py:66-76 | For samples as given, NaN entries left out: the index is the relative entropy of the two samples' bin shares, both ways, added up, an empty bin having a millionth |
| Psi.PsiNumericSound | ml/monitoring/drift.py:66-76 | Numeric drift: no sample lost, never negative, zero exactly when the smoothed bin fractions agree |
| Psi.NoDriftAgainstItself | ml/monitoring/drift.py:66-96 | A sample against itself scores zero, band stable |
| Psi.PsiCategoricalSound | ml/monitoring/drift.py:79-88 | Categorical drift: undefined exactly when one side only is empty and some level exists; else never negative, and zero exactly when the smoothed level shares agree |
| Psi.CategoricalIsDivergence | ml/monitoring/drift.py:79-88 | The same of the shares of the levels that occur |
| Psi.BandExactly | ml/monitoring/drift.py:91-96 | Stable below 0.10, drift from 0.25 on |
| Calibration.MeanSlope | ml/data/generate_synthetic.py:111-122 | The mean default rate is monotone in the intercept with slope at most 1/4 |
| Calibration.MeanExactly | ml/data/generate_synthetic.py:111-122 | The mean rate of one score is the sigmoid of score plus bias; that of two groups is their mean by size |
| Calibration.Bisect | ml/data/generate_synthetic.py:111-122 | After n halvings the intercept meets the target up to 2.5 / 2^n when the bracket contains it, and otherwise ends at the near end |
| Calibration.CalibrateIntercept | ml/data/generate_synthetic.py:111-122 | The same for the sixty rounds of the source |
| Calibration.ResolveVersion | ml/pipelines/train_pd.py:69-115 | The base as written if it is free or may be overwritten; else the first free number above its patch, none skipped; none when the patch does not read as an integer; the search ends |
| ModelRegistry.Registry.constructor | ml/registry/registry.py:46-51 | Opening creates an empty list only when there is no file |
| ModelRegistry.Registry.Register | ml/registry/registry.py:98-143 | Either an error and an unchanged file, or exactly the edited list, holding the returned entry at its place |
| ModelRegistry.Registry.Promote | ml/registry/registry.py:145-162 | As above, and the champion of the name is the returned entry |
| ModelRegistry.Registry.Archive | ml/registry/registry.py:164-172 | As above for archiving |
| ModelRegistry.EditKeepsGood | ml/registry/registry.py:98-172 | Every successful operation keeps versions unique and at most one champion per name |
| ModelRegistry.EditExactly | ml/registry/registry.py:98-172 | When an operation raises, and the entry it leaves field by field: registering stores all that is passed but keeps the creation time of an entry it replaces, promoting and archiving change the status alone |
| ModelRegistry.ChampionExactly | ml/registry/registry.py:86-90 | get_champion finds an entry exactly when it is there with that name as champion |
| ModelRegistry.PromotedIsChampion | ml/registry/registry.py:86-90 | After promote, get_champion returns that entry, otherwise unchanged, whatever list it started from |
| ModelRegistry.RegisteredChampion | ml/registry/registry.py:98-143 | A registered champion is the champion, with the creation time of the entry it replaced |
| ModelRegistry.EditFrame | ml/registry/registry.py:98-172 | Every other entry stays, except that a replaced champion becomes archived |
| ModelRegistry.OtherNamesKeepChampion | ml/registry/registry.py:145-172 | No promotion or archiving changes the champion of another name |
| RegistryRuns.EveryWriteIsGood | ml/registry/registry.py:98-172 | Whatever instances interleave their reads and one-step writes, every content ever written keeps both invariants |
| RegistryRuns.FreshWritesFold | ml/registry/registry.py:98-172 | If no write lands between an operation's read and its write, the file is the operations applied one after the other |
| RegistryRuns.EditLookup | ml/registry/registry.py:98-172 | Entry by entry, what an operation writes is determined by the entry it read |
| RegistryRuns.WriteExactly | ml/registry/registry.py:98-172 | A write agrees at a version with what the operation makes of the current file exactly when it makes the same of the entry held |
| RegistryRuns.LostExactly | ml/registry/registry.py:98-172 | An entry the operation does not concern is put back as read, so it survives exactly when the list held has it as the file does |
| RegistryRuns.StaleWriteLosesUpdate | ml/registry/registry.py:98-172 | Of any two operations that read the same file, the second undoes the first on each version it does not concern |
| RegistryFiles.ExclusiveIsAtomic | ml/registry/registry.py:65-69 | While no instance opens the temporary file during another's write, the file is whole and goes through exactly the contents of one-step writes |
| RegistryFiles.ExclusiveFileIsGood | ml/registry/registry.py:65-69 | Then the file is always a whole list with both invariants |
| RegistryFiles.ReadableFileIsGood | ml/registry/registry.py:65-69 | However many write at a time, whenever the file can be read it has both invariants |
| RegistryFiles.OpenIsSafeExactly | ml/registry/registry.py:65-69 | An open leaves the file readable however the writes begun go on if and only if it meets no writer that has written, none whose temporary file is already in place, and none whose text has another length |
| RegistryFiles.AlwaysReadableExactly | ml/registry/registry.py:65-69 | Over all runs: the file can be read at every moment, however the writes then begun go on, if and only if no open of the run is one of those |
| RegistryFiles.LongerListTears | ml/registry/registry.py:65-69 | For every longer and shorter list: the file ends up torn, reading raises and the second writer's replace fails |
| Sessions.SessionStore.Create | services/auth-svc/src/sessions.ts:52-64 | Stores the new session |
| Sessions.SessionStore.GetActive | services/auth-svc/src/sessions.ts:71-74 | The session if known and not revoked |
| Sessions.SessionStore.Touch | services/auth-svc/src/sessions.ts:81-85 | Moves last_seen of an active session, else nothing |
| Sessions.SessionStore.ListForUser | services/auth-svc/src/sessions.ts:88-92 | Latest seen first, each unrevoked session of the user exactly as often as it is stored, equal times in stored order |
| Sessions.SessionStore.Revoke | services/auth-svc/src/sessions.ts:120-124 | Revokes and says whether it was active |
| Sessions.SessionStore.RevokeAllForUser | services/auth-svc/src/sessions.ts:129-139 | The ids revoked are those that were, and those stored with the user but the spared one; the count is the number of ids added |
| Sessions.StepExactly | services/auth-svc/src/sessions.ts:52-139 | Session by session, what each call makes of the active ones: a bulk revocation ends those of its user but the spared one and leaves every other user's, and each other call touches its own id only |
| Sessions.SessionStore.Size | services/auth-svc/src/sessions.ts:148-154 | The number of sessions not revoked |
| Sessions.ListedForExact | services/auth-svc/src/sessions.ts:88-92 | In a coherent store a listing holds each active session of the user exactly once |
| Sessions.ListingUnique | services/auth-svc/src/pg_session_store.ts:126-130 | A state has one listing per user, so both stores answer alike |
| Sessions.RevocationIsPermanent | services/auth-svc/src/sessions.ts:71-139 | No later calls make a revoked session active again |
| Sessions.PgSessionStore.Init | services/auth-svc/src/pg_session_store.ts:39-67 | The cache becomes what the selected rows say, an absent address or user agent reading as unknown |
| Sessions.PgSessionStore.Create | services/auth-svc/src/pg_session_store.ts:69-98 | The same state change as the simple store, and one INSERT queued |
| Sessions.RowReadsBack | services/auth-svc/src/pg_session_store.ts:39-98 | Written to the table and read back, a new session keeps user and times, its address exactly if it looks like one, its user agent exactly up to 256 characters |
| Sessions.PgSessionStore.GetActive | services/auth-svc/src/pg_session_store.ts:104-107 | The same answer as the simple store |
| Sessions.PgSessionStore.Touch | services/auth-svc/src/pg_session_store.ts:113-124 | The same state change, and an UPDATE exactly when something changed |
| Sessions.PgSessionStore.ListForUser | services/auth-svc/src/pg_session_store.ts:126-130 | The listing of the same state: order, multiplicity and ties as in the simple store |
| Sessions.PgSessionStore.Revoke | services/auth-svc/src/pg_session_store.ts:150-162 | The same state change and result, and an UPDATE exactly when it revoked |
| Sessions.PgSessionStore.RevokeAllForUser | services/auth-svc/src/pg_session_store.ts:164-188 | The same ids revoked and counted, and one UPDATE naming the swept ids, if any |
| SessionRestart.LandFacts | services/auth-svc/src/pg_session_store.ts:69-188 | The content of the table after any writes landed in any order |
| SessionRestart.IssuedFacts | services/auth-svc/src/pg_session_store.ts:69-188 | What the queued writes say of each session against what the cache says |
| SessionRestart.RestartExactly | services/auth-svc/src/pg_session_store.ts:39-188 | Any part of the writes landed, in any order: the table holds an unexpired session of the cache exactly when it was loaded or its INSERT landed, and then agrees on its status if and only if it was not revoked meanwhile or a revocation landed after its row |
| SessionRestart.LoadingReflects | services/auth-svc/src/pg_session_store.ts:39-67 | Loading the unexpired rows makes the cache reflect the table |
| SessionRestart.RestartAgrees | services/auth-svc/src/pg_session_store.ts:39-188 | Each INSERT before its revocations: after a restart every unexpired session has the same status |
| SessionRestart.InOrderMirrors | services/auth-svc/src/pg_session_store.ts:69-188 | When all writes land in the order of issue, the row of every session says what the cache says: user, times and whether it is revoked |
| SessionRestart.InOrderRestart | services/auth-svc/src/pg_session_store.ts:39-188 | Then a restart loads every unexpired session, with the user, the times and the status it had |
| SessionRestart.OvertakenRevocationIsLost | services/auth-svc/src/pg_session_store.ts:69-162 | A revocation that overtakes its INSERT is lost on restart |
| UserPasswords.User.SetPassword | services/auth-svc/src/users.ts:528-556 | The answer follows from all earlier passwords; a failed change alters nothing; the history keeps the last five replaced hashes in order |
| UserPasswords.User.CompleteFirstLogin | services/auth-svc/src/users.ts:702-710 | The same, and on success the flag is cleared and terms are accepted now |
| UserPasswords.StrengthExactly | services/auth-svc/src/users.ts:244-250 | Strong is: eight characters, a small letter, a capital, and a digit or symbol |
| UserPasswords.AcceptedPasswordsAreSpaced | services/auth-svc/src/users.ts:528-556 | Over any attempts made one after the other, each accepted password differs from the six before it, or from all if there are fewer |
| UserPasswords.ReuseExactly | services/auth-svc/src/users.ts:126 | A strong password that was replaced is accepted again exactly from the sixth other one on |
| PasswordRaces.TurnsKeepHistory | services/auth-svc/src/users.ts:528-556 | Step by step with its awaits: changes that take turns keep the rule at every moment |
| PasswordRaces.OverlapForgets | services/auth-svc/src/users.ts:535-555 | Whatever changes are under way, a harmful call can be carried on without another overlap to a password used too soon again |
| PasswordRaces.OneOverlapExactly | services/auth-svc/src/users.ts:535-555 | With one change under way, a strong password is harmful to begin exactly when it is none of the last five and the other change has rotated, or is none of the last six, or is the sixth-last, has not searched and the new one is none of the last six |
| PasswordRaces.SpacedExactly | services/auth-svc/src/users.ts:528-556 | Over all runs: the rule holds at every moment, however the changes then under way are carried on, if and only if no change begins while it and one under way could both be accepted |
| UserPasswords.User.RegisterFailedLogin | services/auth-svc/src/users.ts:433-446 | Counts the failure, locks until now plus the lockout when the threshold is reached, and is true exactly when this failure locked the account |
| UserPasswords.User.MaybeReleaseAutoLock | services/auth-svc/src/users.ts:456-464 | Releases an automatic lock that has run out, resetting the count, and is true exactly when it unlocked |
| UserPasswords.User.SetLocked | services/auth-svc/src/users.ts:407-411 | Locks without an end, or unlocks and resets count and end |
| UserPasswords.ManualLockHolds | services/auth-svc/src/users.ts:407-464 | A manual lock holds through anything but an admin unlock |
| UserPasswords.LocksAtThreshold | services/auth-svc/src/users.ts:433-446 | A row of failures locks exactly at the threshold, until that failure's time plus the lockout |
| UserPasswords.SuccessStartsOver | services/auth-svc/src/users.ts:413-451 | Only the failures since the last success count: the threshold-th of them in a row locks |
| UserPasswords.AutoLockExactly | services/auth-svc/src/users.ts:433-464 | An automatic lock holds through failures, logins and earlier checks, and the first check at or after its end releases it with a clean slate |
| UserPasswords.AdminDecides | services/auth-svc/src/users.ts:407-411 | Whatever came before, an admin unlock leaves a clean slate, and an admin lock holds until an admin unlocks |
| UserPasswords.UnlockedBelowThreshold | services/auth-svc/src/users.ts:407-464 | An unlocked account always has fewer failures than the threshold |
| AuditChain.ChainIsSound | services/auth-svc/src/audit_event_log.ts:52-99 | Over every interleaving of one client: calls settle in turn, each row links to the one with the next smaller id, and the rows by id are the landed appends in call order |
| AuditChain.OneInsertAtATime | services/auth-svc/src/audit_event_log.ts:7-12 | One client never has two INSERTs outstanding |
| AuditChain.TasksAreCalls | services/auth-svc/src/audit_event_log.ts:68-99 | Every append has its own task, in call order |
| AuditChain.NeverStuck | services/auth-svc/src/audit_event_log.ts:68-99 | A failure never blocks, whatever the clients: of the client of an unsettled append, one not after it is inserting or may start |
| AuditChain.StraightExactly | data/schema/003_audit_table.sql:11-90 | For any clients, the chain by id is straight if no row commits after another has landed since its own read, or one with a later id; and, hashes being distinct, only then |
| AuditChain.LaterIdLinksBack | data/schema/003_audit_table.sql:11-90 | For any two clients: a row whose INSERT drew its id first and read last links to a row with a later id |
| AuditChain.OtherClientForks | data/schema/003_audit_table.sql:39-90 | The first append of a second client can land on the same predecessor as another row |
| AuditChain.AlwaysStraightExactly | services/auth-svc/src/audit_event_log.ts:7-12 | The queue keeps the chain of every run straight if and only if one client makes all appends |
| AuditHistory.InMemoryUserAuditStore.Record | services/auth-svc/src/user_audit_history.ts:114-141 | Rejects blank user or actor, an unknown type or a long comment, unchanged; else appends one entry with the next number and the input field by field, a default tenant and the comment without white space around it; all four indexes keep matching the log |
| AuditHistory.InMemoryUserAuditStore.ListByUser | services/auth-svc/src/user_audit_history.ts:143-145 | The page of the log's rows of that user |
| AuditHistory.InMemoryUserAuditStore.ListByTenant | services/auth-svc/src/user_audit_history.ts:147-149 | The page of the log's rows of that tenant |
| AuditHistory.InMemoryUserAuditStore.ListByCorrelation | services/auth-svc/src/user_audit_history.ts:151-156 | The log's rows with that correlation id, oldest first; none for the empty id |
| AuditHistory.InMemoryUserAuditStore.GetEntry | services/auth-svc/src/user_audit_history.ts:158-161 | The logged entry with that id, or None exactly when there is none |
| AuditHistory.InMemoryUserAuditStore.DiffOf | services/auth-svc/src/user_audit_history.ts:163-178 | The diff of the entry's two snapshots |
| AuditHistory.ListingExact | services/auth-svc/src/user_audit_history.ts:180-198 | A listing is newest first, holds each record that meets the four filters, absent or empty ones aside, exactly as often as it was recorded, and equal times as recorded |
| AuditHistory.ListingsExact | services/auth-svc/src/user_audit_history.ts:143-149 | Of a user or a tenant: exactly that one's wanted records |
| AuditHistory.CorrelationExact | services/auth-svc/src/user_audit_history.ts:151-156 | Exactly the records of that correlation id, oldest first; none for the empty id |
| AuditHistory.PageShape | services/auth-svc/src/user_audit_history.ts:187-197 | Fifty rows by default, between one and 500 as asked; a page number absent or below one is one |
| AuditHistory.TrimExactly | services/auth-svc/src/user_audit_history.ts:115-133 | Trimming takes away the white space around a text, and leaves nothing of white space alone |
| AuditHistory.PagesCoverListing | services/auth-svc/src/user_audit_history.ts:180-198 | The pages joined are the whole listing, with no row missed or repeated; each states the total |
| AuditHistory.DiffExact | services/auth-svc/src/user_audit_history.ts:163-178 | The diff names exactly the fields that differ, with both values; empty exactly when the states are equal |
| AuditHistory.DiffAscends | services/auth-svc/src/user_audit_history.ts:163-178 | Its fields ascend strictly, so none comes twice |
| BreachAnalytics.SummarizeBreachEvents | services/bff/src/adapter_sla_breach_analytics.ts:91-176 | The single pass returns the summary whose parts the lemmas below characterise |
| BreachAnalytics.CountersExact | services/bff/src/adapter_sla_breach_analytics.ts:91-176 | Each reason as often as the events name it, the acknowledged events and their rate, the connectors that occur |
| BreachAnalytics.ConnectorsGroup | services/bff/src/adapter_sla_breach_analytics.ts:91-176 | One accumulator per connector, equal to grouping: its count, its latest time, and the name at the first event of that time |
| BreachAnalytics.CountsSumToSample | services/bff/src/adapter_sla_breach_analytics.ts:91-176 | Per-connector counts sum to sample_size |
| BreachAnalytics.ByDayExact | services/bff/src/adapter_sla_breach_analytics.ts:91-176 | by_day ascends strictly, so each day comes once, and holds exactly the days that occur, with their counts |
| BreachAnalytics.TopBreachersAreBest | services/bff/src/adapter_sla_breach_analytics.ts:91-176 | Ten connectors, or all if fewer: each with its own count, latest time and name; more breaches first, then the later last breach, then the smaller id; every connector left out comes after all listed |
| BreachAnalytics.RecentReasonsAreNewest | services/bff/src/adapter_sla_breach_analytics.ts:91-176 | For each connector listed, the reasons of its three newest events, newest first |
| BreachAnalytics.SummaryPermuted | services/bff/src/adapter_sla_breach_analytics.ts:91-176 | No permutation of the events changes a count, a day bucket or the ranking |
| Sorting.SortForgetsOrder | services/bff/src/adapter_sla_breach_analytics.ts:91-176 | Sorting by an order without ties gives one result for all permutations |
| Sorting.StringLeExactly | services/bff/src/adapter_sla_breach_analytics.ts:91-176 | Texts are ordered as in a dictionary: a prefix first, otherwise by the first code unit that differs |
| Sorting.SortedStrings | infra/schema-registry/scripts/check_compat.py:204-205 | Exactly the set's members, as many as it has |
| Sorting.SortedStringsAscend | infra/schema-registry/scripts/check_compat.py:204-205 | They ascend strictly |
| Sorting.ArrangedIsSorted | services/auth-svc/src/sessions.ts:88-92 | Order and stability determine the arrangement: whatever has both is what a stable sort gives |

## Left out

- JSON Schema keywords the checker never reads (format, minimum, pattern, $ref, allOf and others); without length limits a string schema has infinitely many payloads.
- The text of a break's detail, file discovery, version parsing and the meta-schema check in `load_schemas`; `WellFormed` is what those guarantee.
- SchemaSoundness.PlainIsSound: one direction only; the exact statement for every pair of schemas is `CleanIsBackwardExactly`.
- Overlapping calls on the stored queue, and recovery of actions a crash left in flight: the code promises neither.
- Queue timestamps are integers; a stored action is a value of the modelled fields and the list codec is taken to be lossless.
- `SyncRunner` back-off times and the `onAttempt` hook, which is taken not to throw; one drain runs at a time.
- SyncRunner.DrainsExhaust: stored retry counts start below the limit, as enqueue leaves them.
- RateLimit.RateLimiter.Take: counts milliseconds as unbounded integers.
- The KS p-value and the drifted flag, performance drift, floating-point rounding: reals are exact.
- The logarithm and the logistic function are any functions with the properties used (increasing, zero at one; increasing, slope at most 1/4).
- Calibration.CalibrateIntercept: exact reals, where sixty halvings of a double stop making progress earlier.
- XGBoost, SHAP and training; the population features of the synthetic data.
- The registry's thread lock, since one instance's calls do not overlap; the first instance's creation of the file; a dump flushed in parts; JSON text but for its length.
- `SessionStore.listAll`, `clear`, `reset` and failures of `init`; how Postgres prints an address; ids are taken to be fresh, as 64 random bits are.
- Sessions.PgSessionStore.Init: the query's selection of unexpired rows is an argument; `LoadingReflects` says what it must return.
- `UserStore` registration, deletion, restoring, reset tokens and profile validation: independent simple rules.
- argon2: a hash remembers the password it was made of, and verifying compares.
- PasswordRaces.SpacedExactly: the awaits of one history search are one step, as it goes over the list it began with.
- AuditChain.ChainIsSound: the digest is an arbitrary function of the previous hash, the event and its time; canonical JSON and `ip` coercion are not modelled.
- AuditHistory.ListingExact: entries of equal time keep their recorded order, as JavaScript's stable sort keeps them.
- Audit snapshots are maps from field names to opaque values; comparing nested values is comparing their text.
- Widgets, teams, captcha, approvals, adapter reports, catalogues, screens, scripts and DAGs: fixed data or simple storage.
