# Verification of be-aether-node's stateful core

A Dafny model of four parts of the repository, with proofs about every run, interleaving and input of them:

- **Circuit breaker** (`internal/circuitbreaker`). `CircuitBreaker.dfy` gives each critical section as a
  function on the breaker's value and proves the class against them; `BreakerCooldown.dfy` is about runs in
  which `Allow` is atomic; `BreakerProtocol.dfy` interleaves any number of `Execute` calls, one step per
  atomic access, down to the single receives of a drain loop; `BreakerRepaired.dfy` is the same protocol with
  its permits repaired, for contrast; `BreakerAlone.dfy` shows that a call nobody interrupts does what the class
  does; `BreakerGroup.dfy` is the double-checked `Get`.
- **Rate limiter store** (`internal/ratelimit`). `RateLimiter.dfy` has the class with heap buckets and the
  functions it computes, `RateLimiterRuns.dfy` the theorems about whole runs, `Decimal.dfy` the function
  `itoa` and the reading of its result.
- **Telemetry and device services** (`internal/service`). `Devices.dfy` and `NameCacheProtocol.dfy` are the
  device mutators and the name cache, sequentially and interleaved; `Streams.dfy` and `StreamsProtocol.dfy`
  the single-device streams; `Broadcast.dfy` the shared channel; `DevicePayload.dfy` the grouped payload.
- **Flux result pipeline** (`internal/repository/telemetry`, `internal/handler/telemetry_handler.go`).
  `Flux.dfy` and `FluxCsv.dfy` turn rows into series, `HealthPivot.dfy`, `LastWrites.dfy` and `History.dfy`
  gather series per device and per timestamp, and `Lines.dfy`, `HealthCells.dfy` and `HistoryCells.dfy` say what
  comes of it in terms of the lines of a result and their cells. `HistoryPages.dfy` is the paging of a history of whole records,
  `HistoryTables.dfy` the endpoint over a database with one table per field, `HistoryTiling.dfy` and
  `HistoryNewest.dfy` its ascending and descending pages for fields written at any times, and `HistoryCsv.dfy` the
  way from the rows of a CSV answer to those tables. `SerialNumbers.dfy`
  follows a serial number from a cell to the payload.

`Common.dfy`, `Grouping.dfy` and `Telemetry.dfy` hold shared definitions. `dafny verify dfyconfig.toml` checks
everything.

How the model reads the source:

- Time is an integer number of nanoseconds that each step is given; runs have clocks that do not run backwards.
- A critical section is one step, except where the code does something under a lock that others can see
  happen in parts: a drain loop (other calls use the semaphore meanwhile), `List` under the cache's write lock,
  a publisher between look-up and send. There the holder is part of the state.
- A run is a sequence of actions; `Exec` gives its final state, or None when a step of it was not enabled.
- A buffered channel is its contents and whether it is open; sending on or closing a closed channel sets a
  `panicked` flag that is proved never to be set.
- A map walked with `range` is walked in any order. A failing call is a parameter of type `Option`.
- `strconv`, float printing and `time.Parse` are the members of a record `Lib` of arbitrary functions; where a
  theorem needs `strconv.Atoi` to be what it is, or floats to be printed in a form that is read back, it says so
  (`ReadsIntegers`, `PrintsFloats`).
- A history query is answered with one table per field, since the query has no pivot: sort, offset and limit work
  on each table, and the parser merges what they return.

Where the code does not do what its documentation, comments or tests say, the model follows the code, and a
lemma gives the exact condition:

- `Execute` always releases a permit, but only half-open admissions take one. The calls that are stuck are
  counted exactly (`PermitConservation`); one token per call is had only before the first call is let in
  (`PairedExactlyBeforeFirstCall`) and never again (`FirstCallIsLostForGood`); and a breaker that has not yet
  seen its threshold of failures returns no call at all (`HealthyBreakerReturnsNothing`). With a Release only for
  calls that took a token every call can return (`EveryCallCanReturn`).
- `OnStateChange` "is called when state changes": over every run it is told of the moves into half-open, in order,
  and of nothing else (`NotifiedOfHalfOpeningsOnly`).
- The history pages in descending order, the default, are all as they should be, and show the newest record,
  exactly when there is only one, whatever the fields' times (`DescendingPagesIntendedExactlyWhenOne`,
  `DescendingCoversExactlyWhenOnePage`). When all fields are written at the same times, a page is as it should be
  exactly when it is the last (`DescendingPageIntendedExactlyWhenLast`); when fields take turns even the last page
  can be wrong (`LastDescendingPageCanBeEmpty`).
- Ascending pages tile the history when all fields are written at the same times (`AlignedTiles`). In general they
  do exactly when every row counts for the same page in its own table as its record does in the history
  (`AscendingTilesExactlyWhenSamePages`); two fields that take turns lose records (`FieldsInTurnLoseRecords`).
- A serial number is read and written back on its way through the parser. A device is shown whenever the database
  holds its rows exactly when its serial number comes back as it was (`ShownWhenHeldExactlyWhenKept`): for text that
  is read as an integer, when it is that integer's numeral, and for text that is read as a float, such as "6136E123",
  when it is how that float is printed (`TextSurvivesExactlyWhen`). Other numbers are offline whatever the database
  holds, except "-0", which is what "-0.0" becomes (`AlwaysOfflineExactlyWhen`, `OfflineSerials`).
- The test at `tests/service/telemetry_service_test.go` lines 180-205 expects groups by health type; the code groups by the
  type in the device table (`FollowsHealthTypeExactlyWhenTypesAgree`).
- The "token bucket" is a window counter that restarts (`BucketRefinesCounter`).
- `itoa` is right for every 64-bit integer but the smallest (`Itoa`).

## Model

| member | source | states |
|---|---|---|
| CircuitBreaker.CircuitBreaker.constructor | internal/circuitbreaker/circuitbreaker.go:75-98 | a new breaker is closed with empty counters and semaphore, and exactly the zero settings are replaced |
| CircuitBreaker.CircuitBreaker.Allow | internal/circuitbreaker/circuitbreaker.go:108-139 | the whole new state and the verdict, by state: free pass, cooldown test and move to half-open, or one token |
| CircuitBreaker.CircuitBreaker.Release | internal/circuitbreaker/circuitbreaker.go:142-144 | takes a token, and would block exactly when there is none |
| CircuitBreaker.CircuitBreaker.RecordSuccess | internal/circuitbreaker/circuitbreaker.go:147-160 | the whole new state after a success, drained semaphore included |
| CircuitBreaker.CircuitBreaker.RecordFailure | internal/circuitbreaker/circuitbreaker.go:163-177 | the whole new state after a failure, drained semaphore included |
| CircuitBreaker.CircuitBreaker.Execute | internal/circuitbreaker/circuitbreaker.go:180-195 | state and outcome of a call on its own, whether its function succeeds, fails or panics: rejected, ended, or stuck in its Release |
| CircuitBreaker.CircuitBreaker.TransitionToLocked | internal/circuitbreaker/circuitbreaker.go:205-245 | a transition resets the counters, empties the semaphore on the way to open or closed, and notifies only on the way to half-open |
| CircuitBreaker.DefaultsFillZeros | internal/circuitbreaker/circuitbreaker.go:82-93 | the four default values, and that every other setting stays as it is |
| CircuitBreaker.AnswersByState | internal/circuitbreaker/circuitbreaker.go:108-139 | which answer a call gets in which state, and what it changes |
| CircuitBreaker.OutcomesByState | internal/circuitbreaker/circuitbreaker.go:147-245 | the whole breaker after a success and after a failure, by state and counters |
| CircuitBreaker.AloneSeesItsOwnEnding | internal/circuitbreaker/circuitbreaker.go:180-195 | a lone call's caller sees the refusal it was given, the ending of its own function, or nothing |
| CircuitBreaker.NotifiedExactlyIntoHalfOpen | internal/circuitbreaker/circuitbreaker.go:218-244 | one transition runs the callback exactly when the breaker really moves into half-open |
| BreakerProtocol.NotifiedOfHalfOpeningsOnly | internal/circuitbreaker/circuitbreaker.go:205-245 | in every interleaving the callback was told of the log's moves into half-open, in order, and of nothing else |
| CircuitBreaker.AloneReturnsExactlyWhen | internal/circuitbreaker/circuitbreaker.go:180-195 | for every state, which lone calls return, and whether at the cost of somebody else's token |
| CircuitBreaker.AloneReturnsOnlyAsQuietTrial | internal/circuitbreaker/circuitbreaker.go:180-195 | with an empty semaphore a lone call returns exactly as a half-open trial that neither closes nor opens the breaker |
| BreakerCooldown.OnlyLegalEdges | internal/circuitbreaker/circuitbreaker.go:107-177 | with Allow atomic only the four intended edges exist, each made by one kind of operation |
| BreakerCooldown.LastFailureIsLatest | internal/circuitbreaker/circuitbreaker.go:162-177 | over every run lastFailure is the time of the latest failure, and an open breaker has seen one |
| BreakerCooldown.Cooldown | internal/circuitbreaker/circuitbreaker.go:115-126 | an open breaker admits a trial exactly when every recorded failure is at least one timeout old, and otherwise refuses unchanged |
| BreakerProtocol.PermitConservation | internal/circuitbreaker/circuitbreaker.go:107-144 | in every interleaving unreturned calls = tokens + permitless admissions + drained tokens, with the bounds that follow |
| BreakerProtocol.PairedExactlyBeforeFirstCall | internal/circuitbreaker/circuitbreaker.go:107-144 | one token per unreturned call is had exactly in the runs in which no call has got past its reading of the state |
| BreakerProtocol.FirstCallIsLostForGood | internal/circuitbreaker/circuitbreaker.go:180-195 | once a call has, every continuation has more unreturned calls than tokens |
| BreakerRepaired.RepairedPermits | internal/circuitbreaker/circuitbreaker.go:107-144 | what the permits are for: with a Release only for calls that took a token, and transitions that leave the semaphore alone, tokens = permits held and no Release ever blocks, in every interleaving |
| BreakerRepaired.AdmittedWithPermit | internal/circuitbreaker/circuitbreaker.go:107-139 | the repaired breaker still admits: freely when closed, with a token when half-open or cooled down and a slot is free |
| BreakerRepaired.EveryCallCanReturn | internal/circuitbreaker/circuitbreaker.go:180-195 | in the repaired breaker every reachable state can be run on until all calls have returned and no token is left |
| BreakerProtocol.LostCallsStayOut | internal/circuitbreaker/circuitbreaker.go:141-144 | however a run goes on, the calls admitted without a token or robbed of it so far bound the unreturned calls from below |
| BreakerProtocol.HealthyBreakerReturnsNothing | internal/circuitbreaker/circuitbreaker.go:180-195 | until the failure threshold is reached the breaker is closed and no call has returned or been refused |
| BreakerProtocol.ReleaseEnabled | internal/circuitbreaker/circuitbreaker.go:141-144 | a call in Release can go on exactly when more calls are out than were admitted without a token or lost theirs to a drain |
| BreakerProtocol.CountersRefineLog | internal/circuitbreaker/circuitbreaker.go:147-177 | in every interleaving the counters are the trailing failures and the trial successes of the event log, unused ones are 0, and the breaker opens and closes on exactly the threshold-th |
| BreakerProtocol.Reachable | internal/circuitbreaker/circuitbreaker.go:107-245 | the invariant of every reachable state: permits, lock, counters, health, cooldown readings |
| BreakerProtocol.InterleavedEdges | internal/circuitbreaker/circuitbreaker.go:107-126 | with Allow interleaved the edges are the four intended ones and Closed to HalfOpen, and a move to half-open respects the cooldown unless a failure came after its reading |
| BreakerProtocol.StaleReadingLeavesClosed | internal/circuitbreaker/circuitbreaker.go:115-126 | a run in which a stale reading moves a closed breaker to half-open |
| BreakerProtocol.StaleReadingSkipsCooldown | internal/circuitbreaker/circuitbreaker.go:115-126 | a run in which a stale reading moves the breaker to half-open at the very time of a failure |
| BreakerAlone.ExecuteUninterrupted | internal/circuitbreaker/circuitbreaker.go:107-245 | in the interleaved breaker a call that nobody interrupts does to the breaker, and gets, what the sequential Execute does |
| BreakerGroup.CircuitBreakerGroup.constructor | internal/circuitbreaker/circuitbreaker.go:255-260 | a new group is empty |
| BreakerGroup.CircuitBreakerGroup.Get | internal/circuitbreaker/circuitbreaker.go:263-286 | known names keep their breaker, an unknown one gets a fresh breaker with the default settings and its name |
| BreakerGroup.EntriesPersist | internal/circuitbreaker/circuitbreaker.go:263-286 | an entry never changes or vanishes in the rest of a run |
| BreakerGroup.OneBreakerPerName | internal/circuitbreaker/circuitbreaker.go:263-286 | in every interleaving one breaker is made per stored name, and two callers get the same breaker exactly when they asked for the same name |
| BreakerGroup.GetUninterrupted | internal/circuitbreaker/circuitbreaker.go:263-286 | a Get that nobody interrupts returns the stored breaker of its name, or a new one that it stores |
| RateLimiter.TokenBucketStore.Allow | internal/ratelimit/ratelimit.go:82-116 | the new contents and the answer; only the caller's own entry changes |
| RateLimiter.TokenBucketStore.CleanupPass | internal/ratelimit/ratelimit.go:122-133 | exactly the entries older than two intervals go |
| RateLimiter.SweepLeaves | internal/ratelimit/ratelimit.go:122-133 | a pass leaves exactly the entries refilled at most two intervals ago, as they are |
| RateLimiter.TruncatesTowardZero | internal/ratelimit/ratelimit.go:102-103 | the quotient of elapsed time and window is cut toward zero |
| RateLimiterRuns.AllowCases | internal/ratelimit/ratelimit.go:101-115 | after a whole window an entry is served like a new client, inside it a token is taken or the request denied |
| RateLimiterRuns.SharedMatchesAlone | internal/ratelimit/ratelimit.go:82-134 | the answers a client gets from a shared and cleaned store are those it would get alone, and its entry is the same or expired |
| RateLimiterRuns.OthersAndCleanupUnnoticed | internal/ratelimit/ratelimit.go:82-134 | other clients and cleanup passes change nobody's answers in any run exactly when twice the interval covers a window |
| RateLimiterRuns.EarlyCleanupNoticed | internal/ratelimit/ratelimit.go:122-130 | with a shorter interval some run shows the difference |
| RateLimiterRuns.BucketRefinesCounter | internal/ratelimit/ratelimit.go:89-115 | the bucket refines a window counter that restarts: tokens = limit - admissions in the open window, and every answer is the counter's |
| RateLimiterRuns.CountSinceOpener | internal/ratelimit/ratelimit.go:101-115 | until a window is over its count is the number of admissions since the request that opened it, at most the limit |
| RateLimiterRuns.DeniedExactlyWhenUsedUp | internal/ratelimit/ratelimit.go:110-115 | a request is denied exactly when `limit` requests were admitted in a window opened less than a window ago |
| RateLimiterRuns.RateBound | internal/ratelimit/ratelimit.go:86-115 | at most limit * (1 + d / window) admissions in time d from the first request, limit * (2 + d / window) - 1 in any other interval of length d |
| RateLimiterRuns.FirstBoundAttained | internal/ratelimit/ratelimit.go:86-115 | for every number of windows some run attains the bound from the first request |
| RateLimiterRuns.OtherBoundAttained | internal/ratelimit/ratelimit.go:86-115 | and some run attains the other one |
| RateLimiterRuns.SharedStoreBound | internal/ratelimit/ratelimit.go:82-134 | the same bounds for a client of a shared store with cleanup |
| Decimal.NumeralReads | internal/ratelimit/ratelimit.go:242-249 | a decimal numeral is canonical, reads back as its number, and holds no comma |
| Decimal.WellFormedIsNumeral | internal/ratelimit/ratelimit.go:232-250 | conversely a canonical text is the numeral of the number it denotes |
| Decimal.PrependDigits | internal/ratelimit/ratelimit.go:242-245 | the digit loop puts the digits of the number in front |
| Decimal.Itoa | internal/ratelimit/ratelimit.go:232-250 | the text reads back as the number in canonical form exactly for the 64-bit integers above the smallest |
| Devices.NameCache.GetNameMap | internal/service/telemetry/telemetry_service_impl.go:141-170 | a cache that is not empty and less than five minutes old answers; else a successful List does and is cached; from a coherent cache or a successful List the answer is the names listed now |
| Devices.NameCache.InvalidateDeviceCache | internal/service/telemetry/telemetry_service_impl.go:172-177 | the cache is empty and stale afterwards |
| Devices.DeviceService.CreateDevice | internal/service/device/device_service_impl.go:21-47 | a new row and an emptied cache, or no change and exactly which error; serial numbers stay distinct and the cache coherent |
| Devices.DeviceService.UpdateDevice | internal/service/device/device_service_impl.go:61-103 | member by member the device takes the present members of the request and all other rows stay, or no change and exactly which error; distinctness and coherence kept |
| Devices.DeviceService.DeleteDevice | internal/service/device/device_service_impl.go:105-115 | the row goes and the cache is emptied, or an error and no change |
| Devices.NamesAreAliases | internal/service/telemetry/telemetry_service_impl.go:160-165 | over distinct serial numbers the name map has exactly each listed device's alias |
| NameCacheProtocol.CacheCoherence | internal/service/telemetry/telemetry_service_impl.go:141-177 | in every reachable state a non-empty cache is what List would give now, or a mutator is between commit and invalidation |
| NameCacheProtocol.UnexposedReaderIsCurrent | internal/service/telemetry/telemetry_service_impl.go:141-170 | a getNameMap that no unfinished mutation overlaps returns the names of the moment it returns, or an empty map when its List failed |
| NameCacheProtocol.UndisturbedIsUnexposed | internal/service/device/device_service_impl.go:94-112 | a reader during whose call no mutator stands between commit and invalidation was not overlapped by one |
| NameCacheProtocol.ReaderSeesReturnedMutations | internal/service/telemetry/telemetry_service_impl.go:141-177 | a call that starts after a mutation returned, with no other under way, yields the current names |
| NameCacheProtocol.AnswerNoOlderThanReturned | internal/service/telemetry/telemetry_service_impl.go:141-177 | whatever other mutations overlap a call, a non-empty answer is the names after some commit no older than that of any mutation that had returned before the call |
| NameCacheProtocol.NoAnswerMeansListFailed | internal/service/telemetry/telemetry_service_impl.go:157-167 | a reader is left without names of its own only when its List failed |
| NameCacheProtocol.WorkingReaderIsCurrent | internal/service/telemetry/telemetry_service_impl.go:141-170 | a getNameMap whose List did not fail and that no unfinished mutation overlaps returns the current names, always |
| NameCacheProtocol.ReadUninterrupted | internal/service/telemetry/telemetry_service_impl.go:141-170 | a reader that nobody interrupts does what the sequential getNameMap does |
| NameCacheProtocol.MutateUninterrupted | internal/service/device/device_service_impl.go:94-112 | a mutator that nobody interrupts leaves its rows and an empty cache |
| Streams.OfferedKeepsFirst | internal/service/telemetry/telemetry_service_impl.go:53-64 | non-blocking sends drop only from the end: the buffer keeps the first readings there was room for |
| Streams.Hub.Dispatch | internal/service/telemetry/telemetry_service_impl.go:70-92 | one reading goes to the shared channel and to its own device's channel only, each if there is room |
| Streams.Hub.PublishAll | internal/service/telemetry/telemetry_service_impl.go:52-66 | after a tick each channel holds what offering it its own device's readings in order gives |
| Streams.Hub.StreamDevice | internal/service/telemetry/telemetry_service_impl.go:113-119 | a fresh open channel takes the device's entry |
| Streams.Hub.EndStream | internal/service/telemetry/telemetry_service_impl.go:121-127 | the device's entry goes, whoever's it is, and the subscription's own channel is closed; registered channels stay open |
| StreamsProtocol.NoSendOnClosedChannel | internal/service/telemetry/telemetry_service_impl.go:58-65 | in every interleaving nothing is sent on a closed channel, none is closed twice, registered channels are open, and clients get only their device's readings |
| StreamsProtocol.RegisteredUntilTouched | internal/service/telemetry/telemetry_service_impl.go:113-127 | a subscription stays registered exactly until someone subscribes to its device or cancels a subscription to it |
| StreamsProtocol.SubscribingRegisters | internal/service/telemetry/telemetry_service_impl.go:113-119 | when no publisher is between look-up and send, a subscription's fresh open channel becomes the one registered |
| StreamsProtocol.LookupFindsSubscriber | internal/service/telemetry/telemetry_service_impl.go:58-59 | a publisher finds the channel registered for its reading's device, and none exactly when none is |
| StreamsProtocol.LockedUntilSent | internal/service/telemetry/telemetry_service_impl.go:58-65 | what it found it keeps until it sends, whatever others do |
| StreamsProtocol.FoundIsDelivered | internal/service/telemetry/telemetry_service_impl.go:59-64 | then the reading goes to the end of that channel if it has room, and no other channel changes |
| Broadcast.BroadcastConserves | internal/service/telemetry/telemetry_service_impl.go:94-111 | over every run the accepted readings are, as a multiset, those still buffered and those some forwarder took |
| Broadcast.ClientsSeeDisjointSubsequences | internal/service/telemetry/telemetry_service_impl.go:94-111 | each forwarder takes a subsequence of the accepted readings in order, no reading goes to two, and a client has received a prefix of what its forwarder passed on |
| Broadcast.AcceptedExactlyWithRoom | internal/service/telemetry/telemetry_service_impl.go:53-56 | an offered reading is accepted exactly when the shared channel has room |
| Broadcast.OldestCanBePassedOn | internal/service/telemetry/telemetry_service_impl.go:96-108 | from every state an idle forwarder can take the oldest reading and pass it on to a client with room |
| DevicePayload.StreamAllDevicesWithHealth | internal/service/telemetry/telemetry_service_impl.go:179-248 | an error exactly when one of the three calls fails; otherwise each group is the joined devices of its kind, and every entry shows its device |
| DevicePayload.PayloadPartitionsDevices | internal/service/telemetry/telemetry_service_impl.go:212-245 | the payload is an order-preserving partition of the device list: each device at exactly one place, sizes adding up |
| DevicePayload.PayloadShowsDevices | internal/service/telemetry/telemetry_service_impl.go:212-245 | every entry member by member: the device's telemetry or none, its last health under its alias, or the offline members spelled out; in the group of its type or "unknown" |
| DevicePayload.FollowsHealthTypeExactlyWhenTypesAgree | internal/service/telemetry/telemetry_service_impl.go:216-245 | groups follow the health type exactly when it agrees with the device table for every listed device that has health data |
| Flux.IndexColumns | internal/repository/telemetry/telemetry_repository_impl.go:404-408 | the index has the last position of every column name and no other |
| Flux.ReadField | internal/repository/telemetry/telemetry_repository_impl.go:412-415 | the cell of the named column, or nothing without the column or in a short row |
| Flux.ParsedExactly | internal/repository/telemetry/telemetry_repository_impl.go:940-954 | which cells are nil, integers, floats and texts |
| Flux.NumbersKept | internal/repository/telemetry/telemetry_repository_impl.go:957-972 | numbers count as themselves, text and nil as 0 |
| Lines.CellIsField | internal/repository/telemetry/telemetry_repository_impl.go:404-415 | the look-up by name finds the row's cell in the last column of that name |
| FluxCsv.JoinedIsInjective | internal/repository/telemetry/telemetry_repository_impl.go:872-873 | the joined key is the same exactly for the same result name and table number |
| FluxCsv.ParseFluxCSV | internal/repository/telemetry/telemetry_repository_impl.go:812-937 | one series per key in order of first appearance, with the name and tags of its first row and the parsed rows of its key |
| FluxCsv.ReadRow | internal/repository/telemetry/telemetry_repository_impl.go:920-931 | the parsed cells of the kept columns, nil where the row is short |
| FluxCsv.ReadColumns | internal/repository/telemetry/telemetry_repository_impl.go:893-905 | the kept columns with _time renamed |
| FluxCsv.ReadTags | internal/repository/telemetry/telemetry_repository_impl.go:884-891 | the non-empty tag cells |
| FluxCsv.TagsAreNonEmptyCells | internal/repository/telemetry/telemetry_repository_impl.go:884-891 | a series has a tag exactly for the tag columns in which its first row has a non-empty cell |
| FluxCsv.GroupingConservesRows | internal/repository/telemetry/telemetry_repository_impl.go:846-934 | every data row is held by exactly one series, in order, and two rows share a series exactly when they agree on result name and table number |
| FluxCsv.SeriesAreTables | internal/repository/telemetry/telemetry_repository_impl.go:862-873 | in cells: two rows share a series exactly when their "result" cells hold the same text and their "table" cells the same number, "" and 0 standing in |
| FluxCsv.SeriesAreTablesOfFullRows | internal/repository/telemetry/telemetry_repository_impl.go:862-873 | for rows that reach both columns the two cells decide |
| FluxCsv.SeriesIsNamedByFirstRow | internal/repository/telemetry/telemetry_repository_impl.go:875-891 | a series' name and tags in the cells of its first row |
| FluxCsv.DataRowsAreLongRows | internal/repository/telemetry/telemetry_repository_impl.go:855-860 | the data rows are the rows of at least five cells, in order |
| FluxCsv.ReaderFindsColumn | internal/repository/telemetry/telemetry_repository_impl.go:893-931 | a reader finds each kept column's cell, parsed, under its name, and none of the columns left out |
| FluxCsv.LookupFindsCell | internal/repository/telemetry/telemetry_repository_impl.go:893-931 | a look-up by name in a parsed row gives the parsed cell of the last kept column of that name |
| FluxCsv.DistinctNamesHaveOneSource | internal/repository/telemetry/telemetry_repository_impl.go:893-905 | with distinct names and no column called "timestamp" that is the one column of the name |
| HealthPivot.PivotRow | internal/repository/telemetry/telemetry_repository_impl.go:410-481 | the body of the row loop updates exactly the row's device |
| HealthPivot.UpdateWrites | internal/repository/telemetry/telemetry_repository_impl.go:428-464 | a row changes the slots it writes and no others |
| HealthPivot.ParseHealthResult | internal/repository/telemetry/telemetry_repository_impl.go:394-502 | one entry per mentioned device: every slot its last write, LastSeen the maximum, status by the 30 s threshold |
| HealthCells.HealthIsInCells | internal/repository/telemetry/telemetry_repository_impl.go:394-502 | every entry in cells: each number, text and tag from the last line that has it, 0 or empty without one, the latest time, online within 30 s; one entry for each device |
| HealthPivot.EntryIsDetermined | internal/repository/telemetry/telemetry_repository_impl.go:394-502 | that description fixes an entry completely |
| HealthPivot.OrderIrrelevantExactlyWhenAgreed | internal/repository/telemetry/telemetry_repository_impl.go:398-483 | the entries are the same for every order of the rows exactly when no two rows write different values to one slot of a device |
| HealthPivot.AgreedListsHoldSameDevices | internal/repository/telemetry/telemetry_repository_impl.go:485-501 | then any two results hold the same entries |
| LastWrites.GatherIsLastWrites | internal/repository/telemetry/telemetry_repository_impl.go:708-721 | one bag per key that occurs, holding for each field its last write and nothing else |
| LastWrites.AddCell | internal/repository/telemetry/telemetry_repository_impl.go:700-720 | the map update makes the key known and writes the field |
| History.ParseTelemetryLatest | internal/repository/telemetry/telemetry_repository_impl.go:563-603 | the last non-nil writes per device, for devices with a serial number only |
| HistoryCells.LatestIsInCells | internal/repository/telemetry/telemetry_repository_impl.go:563-603 | in cells: exactly the devices that lines are about, and of each the fields that lines give a value, with the last one |
| History.ParseTelemetryHistory | internal/repository/telemetry/telemetry_repository_impl.go:668-740 | one record per distinct timestamp with its last writes, in nondecreasing order of time |
| HistoryCells.HistoryIsInCells | internal/repository/telemetry/telemetry_repository_impl.go:668-728 | in cells: one record for exactly the times of the lines, with exactly the fields that lines of its time give, each with the last value |
| History.ExchangeSort | internal/repository/telemetry/telemetry_repository_impl.go:730-737 | the in-place loops compute the exchange sort |
| History.SortIsSorted | internal/repository/telemetry/telemetry_repository_impl.go:730-737 | the exchange sort yields a nondecreasing permutation |
| History.WalkOrderIrrelevantExactlyWhen | internal/repository/telemetry/telemetry_repository_impl.go:724-739 | the history does not depend on the order of the map exactly when no two timestamps stand for one instant |
| HistoryPages.ReadPaging | internal/handler/telemetry_handler.go:213-230 | limits from 1 to 100 and pages from 1 are taken as they are, 20 and 1 stand in for others, offset = (page - 1) * limit, and no order or "desc" means descending |
| HistoryPages.RequestTaken | internal/handler/telemetry_handler.go:213-230 | pages from 1 and limits from 1 to 100 are taken as they are, 1 and 20 stand in, and no order is descending |
| HistoryPages.AscendingPage | internal/handler/telemetry_handler.go:255-259 | over whole records an ascending page is as intended, and says more exactly when rows are left |
| HistoryPages.AscendingPagesTile | internal/handler/telemetry_handler.go:227-259 | ascending pages concatenate to the history without gap or repeat |
| HistoryPages.DescendingPage | internal/handler/telemetry_handler.go:255-259 | exactly which records a descending page holds |
| HistoryPages.DescendingPageIntendedExactlyWhenLast | internal/handler/telemetry_handler.go:255-259 | over whole records, which is what fields written at the same times make, a descending page is as intended exactly when it is the last |
| HistoryPages.DescendingRepeatsARecord | internal/handler/telemetry_handler.go:227-259 | with several pages the first row of the last page is on the page before it too |
| HistoryTables.GetTelemetryHistory | internal/handler/telemetry_handler.go:232-266 | the endpoint's records and has-more are the page computed from the tables in the database |
| HistoryTables.RecordHasEveryField | internal/repository/telemetry/telemetry_repository_impl.go:708-721 | a record of the merged history has every field that a row of its time writes, with its value |
| HistoryTables.RecordHasNoOtherField | internal/repository/telemetry/telemetry_repository_impl.go:708-721 | and no field that no row of its time writes |
| HistoryTables.ParserSortsOldestFirst | internal/repository/telemetry/telemetry_repository_impl.go:730-739 | for fields written at the same times the parser returns a query's records whole and oldest first, whichever order their rows came in |
| HistoryTables.AlignedPage | internal/repository/telemetry/telemetry_repository_impl.go:633-665 | for any number of fields written at the same times the endpoint answers the pages of the history of whole records, in both orders |
| HistoryTiling.SamePagesGivePage | internal/handler/telemetry_handler.go:255-259 | where rows and records count for the same pages, every ascending page and its has-more are as intended |
| HistoryTiling.AscendingTilesExactlyWhenSamePages | internal/repository/telemetry/telemetry_repository_impl.go:633-665 | whatever the fields' times, ascending pages tile the history exactly when every row counts for the same page in its table as its record does in the history |
| HistoryTiling.AlignedTiles | internal/handler/telemetry_handler.go:227-259 | fields written at the same times meet that condition, so their ascending pages tile |
| HistoryTiling.RequestsTileExactlyWhenSamePages | internal/handler/telemetry_handler.go:213-259 | the endpoint's answers to requests for pages 1, 2, 3 and so on in order "asc" are the history exactly under that condition |
| HistoryTiling.FieldsInTurnLoseRecords | internal/handler/telemetry_handler.go:255-259 | two fields that take turns: the second and the fourth of four records are on no ascending page of one record |
| HistoryNewest.DescendingCoversExactlyWhenOnePage | internal/handler/telemetry_handler.go:227-259 | whatever the fields' times, the newest record is on a descending page exactly when there is a single page, which then is the whole history |
| HistoryNewest.DescendingPagesIntendedExactlyWhenOne | internal/handler/telemetry_handler.go:227-259 | whatever the fields' times, all descending pages hold what they should exactly when there is a single page |
| HistoryNewest.LastDescendingPageCanBeEmpty | internal/handler/telemetry_handler.go:255-259 | two fields that take turns: the last descending page of one record is empty instead of the oldest record |
| HistoryCsv.CsvCellReadsColumns | internal/repository/telemetry/telemetry_repository_impl.go:684-721 | a CSV row counts for the time, field name and value of its own cells in the last columns of those names |
| HistoryCsv.ParsedCsvHoldsTables | internal/repository/telemetry/telemetry_repository_impl.go:846-934 | what the history parser reads from parsed CSV is the rows of each result and table, table after table |
| HistoryCsv.HistoryFromCsv | internal/handler/telemetry_handler.go:232-266 | from the rows of the CSV answer on, the endpoint answers the page of the tables they encode |
| SerialNumbers.TextSurvivesExactlyWhen | internal/repository/telemetry/telemetry_repository_impl.go:940-983 | a cell comes back as it was: read as an integer, exactly when it is a canonical numeral; read as a float, exactly when it is how the float is printed; else always |
| SerialNumbers.MissedExactlyWhenRewritten | internal/repository/telemetry/telemetry_repository_impl.go:940-983 | no cell at all comes back as a text exactly when the text itself does not, "-0" apart |
| SerialNumbers.ParsedSeriesHoldCells | internal/repository/telemetry/telemetry_repository_impl.go:920-933 | every value of a parsed series comes from a cell |
| SerialNumbers.HealthFoundExactlyWhenReported | internal/service/telemetry/telemetry_service_impl.go:198-236 | the payload finds a device's health exactly when its serial number is not empty and some row reports it, and then the entry the rows determine |
| SerialNumbers.ShownWhenHeldExactlyWhenKept | internal/service/telemetry/telemetry_service_impl.go:212-245 | whenever the database holds a device's rows its payload entry has its telemetry and its last health, exactly when the parser keeps its serial number as it is |
| SerialNumbers.AlwaysOfflineExactlyWhen | internal/service/telemetry/telemetry_service_impl.go:212-245 | a device is shown offline and without telemetry whatever the database holds exactly when its serial number is empty, or rewritten and not "-0" |
| SerialNumbers.OfflineSerials | internal/service/telemetry/telemetry_service_impl.go:212-245 | the same by what the serial number is read as: an integer, a float, or no number |

## Left out

- Negative breaker settings: New keeps them, and the thresholds mean nothing then; the theorems about thresholds take positive ones.
- Limits below 1 in the rate limiter: the model computes them as the code does, the theorems about runs take a limit of at least 1.
- Machine overflow of int(elapsed/window)*limit and of (page-1)*limit: unbounded integers.
- NewRateLimiter: skipper, identifier extraction, headers, the choice of the larger of RequestsPerUnit and Burst as the limit.
- HTTP, SSE writing, metrics, NATS, configuration, WriteTelemetry and queryFlux transport, the legacy parseQueryResult path.
- The database: a table with the order of List; an error of a write means that it did not commit, and the check for an existing serial number and the insert are one step in the sequential model.
- Devices changed by anything but the device service: the name cache has no way to learn of them.
- StreamAllDevices as an object: the forwarder goroutines are steps of the state machine in Broadcast, since all they do is pass readings on.
- CSV tokenising, number and time parsing, float printing: arbitrary functions.
- HealthPivot.ParseHealthResult: the map of pointers is a map of values, since each entry has one owner; LastSeen is an instant, without the zone it was written in.
- History.ParseTelemetryHistory: the map key, the RFC3339Nano text of a time, is the pair of instant and zone offset that it encodes.
- HistoryTables.GetTelemetryHistory: within a table of the database the times are distinct, and all are written in one zone, as InfluxDB answers; the query's aggregation window is part of what the tables hold.
- HistoryPages.DescendingPage: the exact contents of each descending page are stated for fields written at the same times; for other fields, when all pages are right and what becomes of the newest record is.
- BreakerRepaired.RepairedPermits: the repair is a design beside the code, not code of the repository.
- Floats: negative zero, NaN and the infinities are values of their own; the rounding of integers to floats is not modelled.
- User, location, installation point, API key, threshold, alarm and auth services: partial updates and page counts.
