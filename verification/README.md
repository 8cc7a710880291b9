# A verified model of briefcase's integrity, bitemporal, controls and guardrail core

This project models, in Dafny 4.11, the parts of the repository that carry its promises, and proves them for all
inputs, all runs and all interleavings. `dafny verify dfyconfig.toml` checks everything.

| part | modules | main results |
|---|---|---|
| tamper-evident hash chain | `HashChain`, `ChainLog`, `AppendProtocol`, `JsonlFile`, `JsonlStore`, `JsonlProtocol` | any number of appenders racing on a compare-and-swap always leave segments that verify; each conflict is charged to another writer's success; the JSONL store with byte offsets, torn lines and crashes refines the in-memory protocol and stops for good behind a torn line; equal end hashes mean equal histories or a collision |
| controls | `Quota`, `QuotaReference`, `Gateway`, `GatewayRates`, `Throttle` | pruning cannot be observed and is amortised; rate bounds over whole runs, of the store and of interleaved invocations; one debit per start and one outcome per invocation under every interleaving; cooldowns are respected; the exception search is sound, complete within its bound and terminates on cycles |
| bitemporal evidence | `Bitemporal`, `BitemporalStore`, `Corrections`, `Ingest`, `Texts`, `Instants`, `Calendar`, `Sqlite`, `SqliteLegacy`, `SqliteHistory` | no look-ahead through any nesting of views; correction lineage; order and batching do not matter; the SQLite backend agrees with the in-memory one because text order is time order |
| policies and examiner bundles | `Policy`, `Examiner`, `SqliteEvidence`, `Json` | a bundle built later is the bundle built then, over either store, and its policy selects what was selected |
| guardrails | `Spaces`, `Cache` | exactly when intersection and union mean what they say; exact LRU and transparency of the cache |
| descriptors | `Descriptors` | closure under imports, and an order that is topological exactly when imports have no cycle |

Objects that the program updates in place are classes here (`InMemoryHashChainStore`, `JsonlHashChainStore`,
`FixedWindowQuotaStore`, `InMemoryBitemporalStore`, `SqliteBackend`, `CacheWrapper`, `TopoSorter`), and loops are loops;
each method is proved against a function of the old state, and the theorems are about those functions. Concurrent
behaviour is a state machine whose step is one atomic operation of one call.

## What is a parameter

- The hash of an entry or of a bundle is any function; nothing assumes that it is injective. The signer is any function.
- The JSON codec of an entry is any pair of functions with `JsonlFile.ValidCodec`: an entry is one line of printable
  ASCII that starts with a brace and parses back, and no proper non-empty prefix of it parses.
- `datetime.fromisoformat` and the conversion to UTC are any functions with `SqliteLegacy.ValidClock`: the first reads
  back what `isoformat` wrote, the second yields the time whose count of microseconds on the Gregorian calendar is that
  of the local time less the offset, if there is one. A moment is the number that `Instants` gives the calendar fields
  of a UTC datetime.
- The guardrail behind the cache and the cache key, the shell-pattern match, the message regex and the reflection server
  are any functions. The reflection server draws file names from a finite set; otherwise collection need not end.
- The clock, fresh ids, and what the outside world answers a gateway invocation are arguments. Floats are reals.

## Where the code differs from its documentation

- `load_entries` returns the last entry of a file that lacks only its final newline, while every refresh rejects that file
  (`JsonlFile.LoadAfterCrash`).
- The in-memory bitemporal store checks a record id only within its key, though the comment at `briefcase/bitemporal/store.py:71`
  says across keys (`BitemporalStore.OneIdUnderTwoKeys`, `BitemporalStore.AcceptedIffFresh`); its `append_many` is not atomic,
  SQLite's is (`BitemporalStore.RejectedBatchStays`, `BitemporalStore.RejectedBatchIsAtomicIff`).
- `history` of the SQLite backend is ordered by time, though the protocol promises insertion order
  (`SqliteHistory.HistoryAgreesIff` says when they agree).
- An empty list of agents or actions means "anything", so disjoint lists intersect to "anything" and a union with an
  unconstrained side can shrink it (`Spaces.IntersectionExactIff`, `Spaces.UnionCoversIff`). `contains` ignores resources.
- Under the "allow" policy a failing quota store lets the function run without a debit, though the docstring of the gateway
  says that no path spends without one (`Gateway.WavedStartHappens`, `Gateway.StartWithoutDebitIff`).
- A table that mixes partitions or null entities verifies as one chain only in the shape that
  `ChainLog.MixedTableVerifiesIff` gives (`ChainLog.TwoPartitionsNeverVerify`).
- Corrections supersede what they correct only in runs where each record fitted when it was appended
  (`Corrections.RunsBuildLineageIff`); a record stored after its correction can come back
  (`Corrections.StoredAfterItsCorrection`).
- The SQLite backend may answer otherwise than the in-memory store where an empty parent id ties with a correction
  (`Sqlite.SqlAgreesIff`).
- A decision routed without the as-of clamp and stamped T is bundled with the policy that decided it if and only if the
  policy's newest row was learned by T, or the row as of T carries an equal policy (`Examiner.UnclampedReplayIff`;
  `Examiner.FutureDatedPolicyBreaksReplay` is a registry where it is not).

## Model

| member | source | states |
|---|---|---|
| HashChain.VerifyChainSegment | briefcase/integrity/chain.py:264-301 | accepts exactly the segments in which every entry names its predecessor and hashes to its claim; otherwise returns the row id of the first broken link, with every link before it intact |
| HashChain.InstantIsHashed | briefcase/integrity/chain.py:74-90 | what is hashed of a time is 1000 times the count of microseconds of its UTC instant, where local time is UTC plus the offset and naive means UTC; two times hash alike if and only if they show one instant |
| HashChain.HashedFields | briefcase/integrity/chain.py:98-144 | an entry hashes to the hash of version 1, its fields and the two instants, whatever offsets its times are written with |
| HashChain.VerifiesSnoc | briefcase/integrity/chain.py:280-301 | an appended entry keeps a segment verified if and only if it names the end hash and hashes to its claim |
| HashChain.VerifiesInWindows | briefcase/integrity/chain.py:264-301 | verifying a window from the hash before it and verifying the rest add up to verifying the whole, both directions |
| HashChain.TamperEvidence | briefcase/integrity/chain.py:120-144 | two segments that verify from one hash and end in one hash agree entry for entry in every hashed field (times as instants), or the proof returns two different inputs with one hash, taken from them, or an entry that hashes to the start; the hash is any function |
| HashChain.RewrittenEntryIsExposed | briefcase/integrity/chain.py:264-301 | an entry rewritten in place with its hash kept, to another instant for example, passes verification only if no hashed field differs or it exhibits a collision; otherwise exactly its link is broken |
| HashChain.EndHashPinsSegment | briefcase/integrity/chain.py:264-301 | without such a collision a recorded end hash determines the whole segment |
| HashChain.NoForkNoRepeat | briefcase/integrity/chain.py:264-301 | without collisions no hash repeats in a verified segment and no two entries share a prior hash |
| ChainLog.LastIndex | briefcase/integrity/stores.py:56-63 | the reverse scan finds the latest entry of the (table, entity) segment, and none of the segment comes after it |
| ChainLog.TailEndsSegment | briefcase/integrity/stores.py:56-63 | the tail of a segment is the end hash of the slice that `entries_for` returns |
| ChainLog.SegmentVerifies | briefcase/integrity/chain.py:264-301 | in a log where each entry was chained to the tail it met, every non-null partition verifies from genesis whatever else the table holds, and so does a table with null entities only |
| ChainLog.MixedTableVerifiesIff | briefcase/integrity/stores.py:56-63 | absent a collision and an entry hashing to genesis, a table mixing partitions and null entities verifies as one chain if and only if each partition entry comes first or follows one of its own partition |
| ChainLog.TwoPartitionsNeverVerify | briefcase/integrity/stores.py:56-72 | under any hasher two appends to different partitions pass the compare-and-swap, and their table does not verify as one chain unless the first hashes to genesis |
| ChainLog.CollisionlessHashesDiffer | briefcase/integrity/chain.py:120-144 | absent a collision and an entry hashing to genesis, no hash repeats in a whole log, whatever tables and partitions it mixes |
| ChainLog.InMemoryHashChainStore.TailLocked | briefcase/integrity/stores.py:56-63 | the loop returns the end hash of the slice |
| ChainLog.InMemoryHashChainStore.Append | briefcase/integrity/stores.py:65-72 | the entry lands exactly when it names the tail of its segment; otherwise nothing changes |
| ChainLog.InMemoryHashChainStore.LastEntryHash | briefcase/integrity/stores.py:74-76 | answers the tail of the segment |
| ChainLog.InMemoryHashChainStore.EntriesOf | briefcase/integrity/stores.py:78-85 | returns the slice of the segment in log order |
| ChainLog.MakeEntry | briefcase/integrity/chain.py:227-251 | the proposed entry names the tail that was read, hashes to its claim, and carries the caller's fields and a signature of its hash |
| ChainLog.AppendRow | briefcase/integrity/chain.py:214-261 | whatever other writers append before each tail read and between it and the swap: a returned entry is chained to the tail at the moment it landed; a call that gives up saw its segment grow by at least one entry per attempt; a first attempt that nobody disturbs after its read succeeds |
| ChainLog.MovedTailMeansGrowth | briefcase/integrity/stores.py:56-72 | a tail changes only when its own segment gains an entry |
| AppendProtocol.LostSwapHasCulprit | briefcase/integrity/chain.py:252-261 | a lost compare-and-swap means that an entry of the same segment landed after the caller's read |
| AppendProtocol.InvKept | briefcase/integrity/chain.py:214-261 | every step of every call keeps the log well chained, every entry owned by one stored call, and every conflict charged |
| AppendProtocol.Reachable | briefcase/integrity/chain.py:214-261 | the invariant holds in every state of every interleaving of any number of calls |
| AppendProtocol.SegmentsAlwaysVerify | briefcase/integrity/chain.py:200-209 | in every reachable state every partition, and every table used with null entities only, verifies from genesis |
| AppendProtocol.StoredIffSucceeded | briefcase/integrity/chain.py:252-254 | the stored entries are the entries of the successful calls, one each, both directions |
| AppendProtocol.LogOnlyGrows | briefcase/integrity/stores.py:65-72 | along every run nothing stored is changed or removed |
| AppendProtocol.CulpritsDiffer | briefcase/integrity/chain.py:220-261 | different conflicts of one call are charged to different appends of other calls |
| AppendProtocol.ConflictsAreCharged | briefcase/integrity/chain.py:220-261 | a call that lost n swaps saw n appends of other calls succeed in its segment, and one that gave up saw `max_attempts` of them: the system as a whole progresses |
| AppendProtocol.SwapSeesEveryChange | briefcase/integrity/stores.py:65-72 | absent a collision and an entry hashing to genesis, a swap succeeds if and only if nothing landed in the segment since the read (no ABA) |
| JsonlFile.SplitLinesConcat | briefcase/integrity/stores.py:199 | splitting bytes into lines distributes over concatenation at a newline |
| JsonlFile.FirstLine | briefcase/integrity/stores.py:199 | the first line holds no line break and ends at "\n", at "\r\n", at a lone "\r" or at the end of the text |
| JsonlFile.LineCounts | briefcase/integrity/stores.py:199-208 | a line of white space does not count; any other line is the next entry or ends the parse |
| JsonlFile.ParseEncodedLog | briefcase/integrity/stores.py:251-272 | reading back a written file yields exactly the entries written, in order |
| JsonlFile.IndexIsReverseScan | briefcase/integrity/stores.py:209-218 | the tail maps folded over all entries answer every query, null entity included, as the reverse scan does |
| JsonlFile.RefoldIsIdempotent | briefcase/integrity/stores.py:199-211 | folding part of the entries (a refresh that failed half way) and then all of them is folding them once |
| JsonlFile.LookingEarlyIsInvisible | briefcase/integrity/stores.py:180-211 | for any bytes and any extension of them, a refresh now, however it ends, does not change the outcome of a refresh later |
| JsonlFile.RefreshCatchesUp | briefcase/integrity/stores.py:190-211 | on a file of whole lines a refresh from any line boundary ends at the end of the file with the fold of all entries |
| JsonlFile.RefreshFailsOnTornLine | briefcase/integrity/stores.py:195-198 | behind a torn final line a refresh from any boundary raises and learns nothing |
| JsonlFile.LoadAfterCrash | briefcase/integrity/stores.py:251-272 | `load_entries` after a crash k bytes into a line raises, except that when only the newline is missing it returns the last entry as well |
| JsonlStore.AppendRefinesInMemory | briefcase/integrity/stores.py:220-239 | an append through any store at a line boundary succeeds, fails and writes as the in-memory store over the same entries does |
| JsonlStore.JsonlHashChainStore.RefreshTailsLocked | briefcase/integrity/stores.py:180-211 | the loop over new lines computes the refresh, partial folds on failure included |
| JsonlStore.JsonlHashChainStore.TailLocked | briefcase/integrity/stores.py:213-218 | the two map lookups |
| JsonlStore.JsonlHashChainStore.Append | briefcase/integrity/stores.py:220-239 | refresh, compare, write one line, advance the offset and the maps; a conflict or a torn file leaves the file alone |
| JsonlStore.JsonlHashChainStore.LastEntryHash | briefcase/integrity/stores.py:241-249 | refresh, then the tail; a torn file raises |
| JsonlStore.JsonlHashChainStore.ReadEntries | briefcase/integrity/stores.py:251-272 | every entry in file order, or a failure at the first line that does not parse |
| JsonlProtocol.RefreshedTailIsScan | briefcase/integrity/stores.py:180-218 | in every consistent state, after a refresh the incremental index answers as the reverse scan over what `load_entries` returns |
| JsonlProtocol.RefreshOutcome | briefcase/integrity/stores.py:180-211 | a store at any boundary catches up completely on a healthy file and fails unchanged on a torn one |
| JsonlProtocol.StepRefines | briefcase/integrity/stores.py:134-249 | each step of any number of processes on one file, crashes in the middle of a write included, keeps the invariant and is a step of the in-memory protocol or invisible there |
| JsonlProtocol.Reachable | briefcase/integrity/stores.py:134-249 | in every reachable state both the file invariant and the protocol invariant hold |
| JsonlProtocol.FileSegmentsVerify | briefcase/integrity/stores.py:220-239 | whatever the interleaving and the crashes, the whole lines of the file verify from genesis segment by segment |
| JsonlProtocol.FileStoredIffSucceeded | briefcase/integrity/stores.py:220-239 | the whole lines of the file are the entries of the calls that succeeded in any process, one each, both directions |
| JsonlProtocol.FileConflictsAreCharged | briefcase/integrity/chain.py:220-261 | across processes too, each conflict is charged to its own append of another call |
| JsonlProtocol.StoresSitAtBoundaries | briefcase/integrity/stores.py:180-239 | each store's byte offset is a line boundary of the file and its maps are the fold of exactly the lines before it |
| JsonlProtocol.LoadAfterCrashStep | briefcase/integrity/stores.py:251-272 | what `load_entries` returns after a crash step of the protocol |
| JsonlProtocol.TornStepFails | briefcase/integrity/stores.py:194-198 | behind a torn line no store opens, no call obtains a tail or stores an entry, and the file does not change |
| JsonlProtocol.TornIsForever | briefcase/integrity/stores.py:190-211 | from the moment a line is torn the file never changes again, along every run |
| Quota.FixedWindowQuotaStore.TryAcquire | briefcase/controls/quota_fixed_window.py:50-88 | cooldown check, window roll-over, admission and prune, in the order of the code |
| Quota.FixedWindowQuotaStore.Cooldown | briefcase/controls/quota_fixed_window.py:96-108 | sets the deadline, earlier or later, and changes nothing else |
| Quota.FixedWindowQuotaStore.PruneLocked | briefcase/controls/quota_fixed_window.py:121-146 | counts, or removes exactly the windows older than twice their own span and the expired cooldowns |
| Quota.PruneRemoves | briefcase/controls/quota_fixed_window.py:121-146 | a scan happens above 4096 windows, and from 2049 on at every 256th allowed call; it removes exactly the windows older than twice their own span and the cooldowns that are over |
| Quota.StepForgets | briefcase/controls/quota_fixed_window.py:60-88 | one operation on a pruned and on an unpruned store decides alike and keeps what the pruned one forgot unobservable |
| Quota.PruningIsUnobservable | briefcase/controls/quota_fixed_window.py:121-146 | over every run with a clock that does not run backwards and one positive window length per key, the store decides as one that never prunes |
| Quota.ScanWorkIsAmortised | briefcase/controls/quota_fixed_window.py:23-28 | while at most 4096 windows are held the scans of a run cost at most 16 windows per allowed acquire |
| Quota.StepStaysLean | briefcase/controls/quota_fixed_window.py:77-88 | only allowed acquires change the window table, and above the hard bound each leaves only windows younger than twice their own span |
| Quota.TableStaysLean | briefcase/controls/quota_fixed_window.py:132-146 | the same in every state of a run: the table is bounded by the live windows of the last allowed acquire |
| Quota.RateBound | briefcase/controls/quota_fixed_window.py:69-79 | in any half-open interval of one window length anywhere in a run, at most twice the limit of acquires is allowed on a key |
| Quota.TokensAddUp | briefcase/controls/quota_fixed_window.py:83-88 | after an allowed acquire the tokens it reports and the calls allowed so far in the current window, itself included, add up to the limit |
| Quota.WindowBound | briefcase/controls/quota_fixed_window.py:69-79 | a key's current window counts exactly the acquires allowed since it opened, at most the limit |
| QuotaReference.AcquireDecides | briefcase/controls/quota_fixed_window.py:50-108 | after any run of the pruning store its next decision is the one that the calls so far call for: allowed if and only if the deadline marked last is over and the window opened by the greedy partition of the allowed calls has room; the tokens are what is then left of it; the deadline is reported exactly while it is in force |
| Gateway.TalliesKept | briefcase/controls/gateway.py:129-213 | every step of every invocation keeps its permissions, starts and reports in step with its phase |
| Gateway.MarksKept | briefcase/controls/gateway.py:177-200 | every step keeps each marked cooldown in force in the store until its deadline |
| Gateway.NewEventRespectsMarks | briefcase/controls/gateway.py:143-200 | no step admits a call on a key before a deadline marked earlier, or marks an earlier deadline |
| Gateway.Reachable | briefcase/controls/gateway.py:104-213 | these invariants hold in every state of every interleaving of any number of invocations |
| Gateway.OneDebitPerStart | briefcase/controls/gateway.py:143-161 | each start of the function has one permission of its own: a debit by the quota store, or a store error waved through under the "allow" policy and under no other |
| Gateway.StartWithoutDebitIff | briefcase/controls/gateway.py:236-255 | an invocation starts without a debit if and only if it was waved through and has started |
| Gateway.WavedStartHappens | briefcase/controls/gateway.py:236-255 | under the "allow" policy there is a run with such a start |
| Gateway.OneOutcomePerInvocation | briefcase/controls/gateway.py:259-269 | an invocation has reported one outcome if it is done and none before; succeeded and throttled mean that the function ran, hard-capped and quota-exhausted that it did not |
| Gateway.OutcomeSaysHowItEnded | briefcase/controls/gateway.py:159-212 | over every interleaving an invocation is done as succeeded if and only if its function returned, and as throttled if and only if it raised a throttle; any other error of the function ends it as internal; a capped or exhausted one never ran it |
| Gateway.CooldownsAreRespected | briefcase/controls/gateway.py:176-212 | after a recorded throttle no acquire on that tenant and bucket succeeds before its deadline, and later marks do not move the deadline back |
| GatewayRates.RunPerforms | briefcase/controls/gateway.py:129-213 | the quota operations of any interleaving form a steady run of the quota store, and the debits of a key are its allowed acquires |
| GatewayRates.DebitRateBound | briefcase/controls/gateway.py:143-148 | however invocations interleave, no half-open interval of one window length holds more than twice the limit of debits of one tenant and bucket |
| GatewayRates.StartRateBound | briefcase/controls/gateway.py:143-161 | nor more than twice the limit of starts of the function, when each starts at the instant of its debit and store errors do not wave calls through |
| GatewayRates.DelayedStartsPileUp | briefcase/controls/gateway.py:143-161 | without promptness any number of admitted invocations can start at one instant |
| Gateway.StepsApproachEnd | briefcase/controls/gateway.py:129-213 | each step of an invocation brings its end nearer and moves no other invocation |
| Gateway.UnfinishedCanStep | briefcase/controls/gateway.py:129-213 | in every reachable state an invocation that is neither done nor of an unknown bucket has a step that brings its end nearer |
| Gateway.DriveIsARun | briefcase/controls/gateway.py:104-213 | an invocation driven alone to its end continues a run, so the theorems about runs hold of it |
| Gateway.DriveAnswers | briefcase/controls/gateway.py:119-213 | what one invocation answers, raises and leaves in the store, case by case of what the entitlements hook, the quota store, the function and the cooldown mark do: admitted and returned is ok with the reported tokens, an unthrottled error is internal, a throttle carries the deadline of its mark exactly when the mark works |
| Gateway.Controller.AcquireQuota | briefcase/controls/gateway.py:236-255 | acquire under the port-error policy: propagate, deny or allow |
| Gateway.Controller.RunAdmitted | briefcase/controls/gateway.py:160-213 | running the function: success, internal error, or a throttle that marks a cooldown, dated when it is marked, if the store lets it |
| Gateway.Controller.Invoke | briefcase/controls/gateway.py:104-213 | one uninterrupted `invoke` ends as the state machine does, in outcome, error and quota store; an unknown bucket raises and changes nothing |
| Throttle.ClassifySingle | briefcase/controls/throttle.py:59-78 | one error is throttled exactly by class name, code, status 429 or message; a throttle is always transient as well, and only code or status 503 make a transient error that is not throttled |
| Throttle.PathStaysInClosed | briefcase/controls/throttle.py:97-115 | a set of errors closed under cause and context contains everything reachable from its members |
| Throttle.ClassifyProviderError | briefcase/controls/throttle.py:81-115 | the bounded search ends on any graph, cyclic or not; it inspects only reachable errors, so what it reports is there; with at most eight reachable errors the answer is exact in both flags; in general the answer is that of the first eight errors of the recursive walk behind contexts before causes |
| Throttle.WalkStep | briefcase/controls/throttle.py:95-114 | one turn of the loop, pop, skip or push the links, is one step of the recursive walk |
| Instants.EveryInstantIsAMoment | briefcase/bitemporal/backends/sqlite.py:98-109 | every UTC datetime has a number of its own, from which its fields can be read back |
| Instants.BeforeIsRankOrder | briefcase/bitemporal/backends/sqlite.py:98-102 | field-by-field order of datetimes is the order of the numbers that stand for them elsewhere |
| Instants.TextOrderIsTimeOrder | briefcase/bitemporal/backends/sqlite.py:98-102 | for all instants the text order of `_iso` is the order of time, also when one text omits the fraction |
| Instants.IsoIsInjective | briefcase/bitemporal/backends/sqlite.py:98-102 | the text determines the instant |
| Instants.IsoLayout | briefcase/bitemporal/backends/sqlite.py:98-102 | the text is YYYY-MM-DDTHH:MM:SS, a fraction of six digits unless it is zero, and +00:00, and its digits spell the fields |
| Calendar.BeforeIsEarlier | briefcase/bitemporal/backends/sqlite.py:98-102 | on the Gregorian calendar the field-by-field order of datetimes is the order of their counts of microseconds |
| Calendar.TextOrderIsMicrosOrder | briefcase/bitemporal/backends/sqlite.py:98-102 | so the text order of `_iso` is the order of those counts |
| Instants.SuffixMeansUtc | briefcase/bitemporal/backends/sqlite.py:180-190 | the pattern '%+00:00' matches a written timestamp if and only if it was written with offset zero |
| Bitemporal.VisibleIsAnswered | briefcase/bitemporal/store.py:105-119 | whenever a row is visible at the clamps, the query answers |
| Bitemporal.AsOfIsBest | briefcase/bitemporal/store.py:115-128 | the answer is visible, no visible row has a greater (transaction, valid, is-correction) key, and of equal keys it is the first inserted |
| Bitemporal.AnswerIsNewest | briefcase/bitemporal/store.py:93-128 | in terms of the fields: nothing is answered if and only if no row was learned and valid by the clamps, inclusively; otherwise the answer is the one such row that no other outranks by transaction time, valid time and naming a parent, the first among equals |
| Bitemporal.ClampKeepsAnswerIff | briefcase/bitemporal/store.py:93-128 | clamping changes the answer if and only if the unclamped answer lies beyond a clamp |
| BitemporalStore.InMemoryBitemporalStore.Add | briefcase/bitemporal/store.py:69-77 | appends to the rows of the key, or rejects an id that the key already has |
| BitemporalStore.InMemoryBitemporalStore.AddMany | briefcase/bitemporal/store.py:79-81 | appends in order; a rejected record stops, and what came before it stays |
| BitemporalStore.AcceptedIffFresh | briefcase/bitemporal/store.py:69-81 | a batch is accepted if and only if no record repeats an id of its own key, stored or earlier in the batch |
| BitemporalStore.OneIdUnderTwoKeys | briefcase/bitemporal/store.py:69-77 | one id is accepted under two keys |
| BitemporalStore.RejectedBatchIsAtomicIff | briefcase/bitemporal/store.py:79-81 | a rejected batch leaves the store unchanged if and only if its first record is the one rejected |
| BitemporalStore.RejectedBatchStays | briefcase/bitemporal/store.py:79-81 | a rejected batch that leaves a record behind |
| BitemporalStore.InMemoryBitemporalStore.AsOf | briefcase/bitemporal/store.py:93-128 | the two loops compute the as-of query |
| BitemporalStore.AsOfViewObject.Open | briefcase/bitemporal/asof.py:56-68 | a view needs at least one clamp |
| BitemporalStore.AsOfViewObject.LatestOf | briefcase/bitemporal/asof.py:97-100 | the as-of query at the view's own clamps |
| BitemporalStore.AsOfViewObject.AsOfClamped | briefcase/bitemporal/asof.py:102-116 | caller clamps replace the view's and are cut back to them |
| BitemporalStore.AsOfViewObject.VisibleKeys | briefcase/bitemporal/asof.py:126-132 | the keys with a visible row, in order |
| BitemporalStore.ViewKeysAreVisible | briefcase/bitemporal/asof.py:126-131 | through any nesting a view lists exactly the keys with a row that its clamps show, in the order of the view below |
| BitemporalStore.FilterTwice | briefcase/bitemporal/asof.py:118-124 | clamping twice is clamping once at the tighter clamps |
| BitemporalStore.ViewAsOfIsClamped | briefcase/bitemporal/asof.py:102-116 | through any nesting of views a query sees the base store at the tightest of all clamps |
| BitemporalStore.ViewAnswersFromItsHistory | briefcase/bitemporal/asof.py:97-124 | a view answers as a store holding just its history: caller clamps never widen it, and `latest` is the maximum of `history` |
| BitemporalStore.ViewsCompose | briefcase/bitemporal/asof.py:97-132 | a view of a view is one view at the pointwise minimum of the clamps, for `as_of`, `latest`, `history` and `keys` |
| BitemporalStore.LateAppendIsInvisible | briefcase/bitemporal/asof.py:118-132 | an append beyond a view's transaction time changes no answer and no visible key |
| BitemporalStore.NoLookAhead | briefcase/bitemporal/asof.py:97-132 | the same for any sequence of appends, failing ones included, through any nesting of views |
| Corrections.AppendCorrection | briefcase/bitemporal/corrections.py:49-72 | appends the correction of the original, strictly newer than it, or rejects it and changes nothing, saying which rule failed |
| Corrections.CorrectionTakesOver | briefcase/bitemporal/corrections.py:47-72 | a correction of what the clamps answer becomes the answer wherever they show it, with the value asked for, the key and valid time of the original, its metadata under the caller's, and the original as its parent |
| Corrections.WriteKeepsLineageIff | briefcase/bitemporal/corrections.py:60-71 | a write keeps the lineage (each row newer than the stored row it names as its parent, of one key and valid time) if and only if the record does not name itself, is newer than what it corrects and older than what already corrects it |
| Corrections.CorrectionKeepsLineageIff | briefcase/bitemporal/corrections.py:49-71 | the same condition for an accepted correction, in terms of its original and its id |
| Corrections.RunsBuildLineageIff | briefcase/bitemporal/corrections.py:24-72 | a run of records without parents and corrections of any record builds a lineage if and only if each record fitted when it was appended |
| Corrections.StoredRunsBuildLineage | briefcase/bitemporal/corrections.py:24-72 | when each original was stored before it was corrected, every run builds a lineage in which every parent is stored |
| Corrections.StoredAfterItsCorrection | briefcase/bitemporal/corrections.py:65-71 | a record corrected first and stored afterwards as newer breaks the lineage: the query returns it although its correction is visible |
| Corrections.LineageDescends | briefcase/bitemporal/corrections.py:65-69 | following parent links, whichever row was stored first, goes strictly back in transaction time, along one key and valid time, never to the same row |
| Corrections.LineageReachesRoot | briefcase/bitemporal/corrections.py:60-71 | the chain of parents ends, at a record whose parent is not stored at all, or without one when every parent is stored |
| Corrections.CorrectedIsNeverReturned | briefcase/bitemporal/store.py:117-128 | in a lineage, at clamps that show a correction, nothing that it transitively corrects is returned |
| Corrections.BeforeCorrection | briefcase/bitemporal/store.py:107-112 | at a clamp before it a correction is as if never written, whatever was written before and after it |
| Ingest.BatchAppend | briefcase/bitemporal/ingest.py:34-57 | rewrites every record to one transaction time and appends the batch in order |
| Ingest.StreamAppend | briefcase/bitemporal/ingest.py:60-73 | appends one record at its own transaction time, or now if it has none |
| Ingest.AcceptedAreStored | briefcase/bitemporal/store.py:69-81 | after accepted appends each key holds exactly its old rows and the new ones |
| Ingest.BatchesConcat | briefcase/bitemporal/store.py:79-81 | splitting a sequence of appends anywhere gives the same store |
| Ingest.KeysComeInOrderOfUse | briefcase/bitemporal/store.py:69-81 | after accepted appends the keys are listed once each in the order of their first records |
| Ingest.AsOfIgnoresOrder | briefcase/bitemporal/store.py:115-128 | the answer depends on the set of rows alone, up to ties in the sort key |
| Ingest.IngestionOrderIsInvisible | briefcase/bitemporal/ingest.py:34-73 | two stores that accepted the same records in any order and grouping answer every as-of query with equal sort keys, and with the same record when keys are distinct |
| Sqlite.SqliteBackend.AppendMany | briefcase/bitemporal/backends/sqlite.py:243-271 | one transaction: all rows go in if each passes the primary key and the parent reference when its turn comes, else the table is unchanged |
| Sqlite.BatchesAreOneTransaction | briefcase/bitemporal/backends/sqlite.py:243-271 | after any sequence of transactions, rejected ones included, the table is that of one transaction with the committed records |
| Sqlite.AdmissibleConcat | briefcase/bitemporal/backends/sqlite.py:243-271 | two transactions are accepted one after the other if and only if one with the records of both is |
| Sqlite.BatchAcceptedIff | briefcase/bitemporal/backends/sqlite.py:58-71 | a transaction is accepted if and only if each record has a new id and a parent that is itself, in the table, or earlier in the transaction |
| Sqlite.EmptyParentNeedsEmptyId | briefcase/bitemporal/backends/sqlite.py:58-71 | a table without an empty record id accepts no empty parent id |
| Sqlite.SqliteBackend.Fits | briefcase/bitemporal/backends/sqlite.py:58-71 | the primary key and the foreign key on the parent |
| Sqlite.SqliteBackend.AsOf | briefcase/bitemporal/backends/sqlite.py:315-344 | returns a row that no other matching row precedes in the ORDER BY |
| Sqlite.TextOrderOfMoments | briefcase/bitemporal/backends/sqlite.py:98-102 | text comparison of stored times is comparison of the times |
| Sqlite.PrecedesIsKeyOrder | briefcase/bitemporal/backends/sqlite.py:336-340 | the ORDER BY on text is the order of times and then of having a parent, which is the sort-key order of the in-memory store unless a parent id is empty |
| Sqlite.MatchesIsVisible | briefcase/bitemporal/backends/sqlite.py:326-334 | the WHERE clause on text is visibility at the clamps |
| Sqlite.SqlAgreesWithReference | briefcase/bitemporal/backends/sqlite.py:315-344 | whichever row SQLite picks among ties, it has the times of the in-memory answer at every clamp, its sort key unless a row with an empty parent id ties with a correction, and then with distinct keys is the same record |
| Sqlite.SqlAgreesIff | briefcase/bitemporal/backends/sqlite.py:315-344 | every row that SQLite may pick has the sort key of the in-memory answer if and only if there is no such tie |
| Sqlite.LaterRowsAreInvisible | briefcase/bitemporal/backends/sqlite.py:315-344 | rows of later transaction time or other keys change nothing that a clamped query may answer |
| SqliteLegacy.NormalizeLegacyTimestamps | briefcase/bitemporal/backends/sqlite.py:174-224 | rewrites in place exactly the rows of which a time does not end in +00:00, or, if a conversion fails, none |
| SqliteLegacy.UtcSuffixIsNormal | briefcase/bitemporal/backends/sqlite.py:180-190 | a timestamp that the pattern passes over is already the text of its UTC time |
| SqliteLegacy.NormalizingKeepsInstants | briefcase/bitemporal/backends/sqlite.py:98-109 | each timestamp ends up as the text of the time whose count is that of its local time less its offset, naive counting as UTC; a row cannot be rewritten if and only if the calendar lacks such a time |
| SqliteLegacy.NormalizedOrder | briefcase/bitemporal/backends/sqlite.py:174-179 | afterwards the text order of any two timestamps is the order of the instants that they meant |
| Sqlite.SqliteAgrees | briefcase/bitemporal/backends/sqlite.py:243-344 | a table left by any sequence of transactions and an in-memory store that accepted the committed records in any order agree on every as-of query, in the same sense |
| SqliteHistory.OrderIsUnique | briefcase/bitemporal/backends/sqlite.py:293-305 | an ORDER BY without ties determines the order of the rows |
| SqliteHistory.HistoryIsInsertionOrder | briefcase/bitemporal/store.py:87-88 | the in-memory history is the insertion order |
| SqliteHistory.HistoryAgreesIff | briefcase/bitemporal/backends/sqlite.py:293-305 | the two backends return the same records as history, and every order that SQLite may return is the insertion order if and only if the records were appended in the order of their times, all different |
| SqliteHistory.TiesHaveTwoOrders | briefcase/bitemporal/backends/sqlite.py:293-305 | records of one transaction and valid time leave SQLite a choice |
| SqliteHistory.BackdatedHistoryDiffers | briefcase/bitemporal/backends/sqlite.py:293-305 | a backdated record is where the histories differ |
| Policy.FieldMeans | briefcase/routing/policy.py:64-91 | a field holds exactly when its value is listed under "in", or without "in" differs from the one under "ne", or, for anything but an object, equals it; it raises exactly for an object with neither operator or an "in" that is no list |
| Policy.MatchMeans | briefcase/routing/policy.py:64-91 | a rule matches exactly when all of its fields fit the context, a missing one counting as null, and raises exactly when the first field that does not fit is unsupported |
| Policy.SelectMeans | briefcase/routing/policy.py:107-128 | the first rule that matches decides with its own choice, id and rationale; if none matches or raises the default does; the KeyError comes exactly from a rule that raises before any matches |
| Policy.SelectRule | briefcase/routing/policy.py:107-128 | the loop over the rules computes that selection |
| Policy.RuleRoundTrip | briefcase/routing/policy.py:130-147 | a rule survives its dictionary form |
| Policy.PolicyRoundTrip | briefcase/routing/policy.py:130-147 | so does a policy version |
| Policy.Publish | briefcase/routing/policy.py:186-210 | appends one publication record, or rejects a repeated id |
| Policy.PublishKeepsPublished | briefcase/routing/policy.py:186-210 | publishing keeps every row of a policy's key a publication of that policy |
| Policy.FoundHasItsId | briefcase/routing/policy.py:216-234 | so a lookup finds a well-formed policy of the id asked for, or none |
| Policy.GetMeans | briefcase/routing/policy.py:216-234 | a lookup reads the newest row of the policy's key that the clamps show, and finds nothing exactly when they show none |
| Policy.PublishedIsFound | briefcase/routing/policy.py:186-234 | a published policy is what the lookup finds at clamps that show it, if it outranks what else they show; at all other clamps it changes nothing |
| Policy.LaterAppendsKeepPolicy | briefcase/routing/policy.py:216-234 | appends to other keys, and later publications, leave the lookup as of T alone |
| Policy.RouteRecords | briefcase/routing/policy.py:359-395 | routing records the question as it was put and what the policy as of the clamp selects, or fails: no row shown, a row that is no policy, or a rule that raises |
| Policy.UnclampedLookupIff | briefcase/routing/policy.py:216-234 | the lookup without a clamp and the one at T read one row if and only if the newest was learned by T, and find one policy if and only if that holds or the two rows carry equal policies |
| Policy.UnclampedRouteIsClamped | briefcase/routing/policy.py:359-395 | then routing without the clamp, stamped T, is routing as of T |
| Examiner.GatherFinds | briefcase/compliance/examiner.py:108-118 | gathering takes the first row of each wanted id that occurs, once each, and what stays wanted occurs nowhere |
| Examiner.GatherIgnoresOthers | briefcase/compliance/examiner.py:108-118 | rows with other ids do not matter |
| Examiner.UnrelatedAppendsGatherAlike | briefcase/compliance/examiner.py:108-118 | appends with ids that nobody asked for leave the relevant rows and their order alone |
| Examiner.SortAscends | briefcase/compliance/examiner.py:122-123 | records with different ids come out strictly ascending |
| Examiner.GatherEvidence | briefcase/compliance/examiner.py:108-118 | the nested loops over keys and histories gather over the whole scan |
| Examiner.BuildBundle | briefcase/compliance/examiner.py:71-133 | policy lookup, evidence loop, sort and hash build the bundle, or name the missing ids |
| Examiner.BuildMeans | briefcase/compliance/examiner.py:71-133 | for every as-of: a built bundle carries the decision as given, the clamp, the policy of the newest row that the clamp shows, the first stored record of each reference in ascending order, the metadata, and the hash of its payload; a build fails exactly on references that no stored row has, or on a row that is no policy |
| Examiner.ContentHashPinsBundle | briefcase/compliance/examiner.py:139-159 | two bundles that verify under one content hash have one decision, clamp, policy and evidence, or their payloads collide |
| Examiner.EvidenceIsTheRefs | briefcase/compliance/examiner.py:104-123 | a bundle's evidence is one record per reference of the decision, no others, ascending by id |
| Examiner.MissingAreAbsent | briefcase/compliance/examiner.py:117-120 | a build fails exactly on references that no stored row has |
| Examiner.ExaminerReplay | briefcase/compliance/examiner.py:71-133 | a decision routed as of T and stamped T gets the identical bundle after any later publications and any appends of other ids, and the bundled policy, read back, selects the recorded choice and rule |
| Examiner.UnclampedReplayIff | briefcase/compliance/examiner.py:100-107 | a decision routed without the clamp and stamped T is bundled with the policy that decided it if and only if the newest row of the policy was learned by T or the row as of T carries an equal one |
| Examiner.FutureDatedPolicyBreaksReplay | briefcase/routing/policy.py:373-376 | routed without the clamp, a policy learned in the future decides while the bundle shows another |
| Examiner.ReceivedBundleIsOriginal | briefcase/compliance/examiner.py:153-159 | a received bundle that verifies under the content hash of one rebuilt later has the original payload, or the payloads collide |
| SqliteEvidence.BuildForgetsOrder | briefcase/compliance/examiner.py:108-133 | two scans with unique ids that agree on the wanted records build the same bundle, whatever their orders |
| SqliteEvidence.AdmissibleIdsAreUnique | briefcase/bitemporal/backends/sqlite.py:58-71 | the primary key makes ids unique in the whole table |
| SqliteEvidence.ScanReadsTable | briefcase/compliance/examiner.py:112-116 | a scan of a SQLite table, keys and histories in its own orders, reads every committed record once |
| SqliteEvidence.ScanReadsMemory | briefcase/compliance/examiner.py:112-116 | a scan of the in-memory store reads every accepted record once |
| SqliteEvidence.SqliteBundleAgrees | briefcase/compliance/examiner.py:71-133 | evidence from a SQLite table makes the bundle that an in-memory store with the same records makes |
| SqliteEvidence.SqliteReplay | briefcase/compliance/examiner.py:71-133 | after any further transactions of records that the decision does not name, evidence read again from SQLite makes the same bundle |
| SqliteEvidence.SqlitePolicyAgrees | briefcase/routing/policy.py:216-234 | a registry over SQLite finds the policy that one over the in-memory store finds, when no two rows of the policy share a sort key |
| Spaces.ContainsRequest | briefcase/guardrails/framework.py:101-112 | a space contains a request exactly when its lists are empty or name the agent and the action, and each number that the context gives lies between its bounds, inclusively; infinite bounds do not bind |
| Spaces.SortedSetIsSortedSet | briefcase/guardrails/framework.py:1358-1379 | the same names, once each, in order |
| Spaces.GlobIntersect | briefcase/guardrails/framework.py:1463-1487 | keeps exactly the more specific pattern of each overlapping pair, sorted |
| Spaces.SchemaMeets | briefcase/guardrails/framework.py:1418-1428 | the intersected bounds admit exactly what both sides admit |
| Spaces.IntersectionExactIff | briefcase/guardrails/framework.py:1382-1435 | the intersection contains what both spaces contain, for every request, if and only if the agents meet and the actions meet (an empty list meets everything) |
| Spaces.IntersectionHolds | briefcase/guardrails/framework.py:1382-1435 | the common names in order where both lists bind, the binding list where one does; every attribute of either side |
| Spaces.Compatible | briefcase/guardrails/framework.py:1438-1460 | compatible if and only if agents, actions and resource patterns overlap and, for every attribute, some limit lies within the bounds of both sides |
| Spaces.CompatibleIntersectsExactly | briefcase/guardrails/framework.py:1438-1460 | when `is_compatible` holds, the intersection contains a request exactly when both spaces do |
| Spaces.UnionCoversIff | briefcase/guardrails/framework.py:1352-1379 | union contains everything either side contains if and only if, for agents and for actions, both lists are empty or neither is |
| Spaces.UnionHolds | briefcase/guardrails/framework.py:1342-1379 | the names of either side in order, and for an attribute that both bound the lower of the lower and the higher of the upper limits; one that a single side bounds is free |
| Cache.CacheWrapper.Answer | briefcase/guardrails/framework.py:418-441 | lookup, expiry, evaluation, insertion and eviction are one step of the specification |
| Cache.CacheWrapper.Evict | briefcase/guardrails/framework.py:439-440 | drops the oldest entries until the bound holds |
| Cache.RecencyIsByLastUse | briefcase/guardrails/framework.py:424 | recency order is every key used, once each, by position of its last use |
| Cache.UseKeepsLastN | briefcase/guardrails/framework.py:424-440 | moving a key to the end commutes with keeping the n most recent |
| Cache.ExactLru | briefcase/guardrails/framework.py:418-441 | after any trace the ordered keys are the `max_entries` most recently used distinct keys in recency order, whatever expired |
| Cache.EntriesComeFromCalls | briefcase/guardrails/framework.py:437-438 | every entry is what the guardrail answered some call with that key, at the time of that call |
| Cache.CacheIsTransparent | briefcase/guardrails/framework.py:418-441 | an answer is the guardrail's own, or a copy of its answer to a query of the same key at most the time-to-live ago, so a wrong effect exhibits a key collision |
| Cache.AnswersAsHistory | briefcase/guardrails/framework.py:418-441 | the cache answers as its history says: with a copy of what the call that is the source of the key was answered, without timing and marked as a hit, exactly when that call is within the time-to-live and the key among the last used; otherwise with what the guardrail says |
| Cache.EffectIsTransparent | briefcase/guardrails/_types.py:44-51 | with a collision-free key the effect is always the guardrail's |
| Descriptors.TopoSorter.Visit | briefcase/cli/grpc_engine.py:115-126 | visiting ends on any graph, keeps the files sorted so far in place, and lists the file unless it is already on the recursion stack |
| Descriptors.TopoSorter.SortAll | briefcase/cli/grpc_engine.py:105-130 | each file is listed exactly once, and the order is topological if and only if the imports have no cycle |
| Descriptors.EmitKeepsOrder | briefcase/cli/grpc_engine.py:121-126 | a listed file comes after each of its imports in the set, or lies on a cycle with it |
| Descriptors.PositionsFall | briefcase/cli/grpc_engine.py:106-109 | in a topological order positions fall along every import path |
| Descriptors.TopologicalIffAcyclic | briefcase/cli/grpc_engine.py:105-130 | an order that respects imports up to cycles is topological if and only if there are none |
| Descriptors.IngestAll | briefcase/cli/grpc_engine.py:303-307 | the first file of a name stays; every import of a collected file is collected, pending or was asked for |
| Descriptors.CollectFiles | briefcase/cli/grpc_engine.py:295-322 | collection ends with every file returned for a service other than the reflection services, and every import of every collected file except those for which the server returned no such file; nothing else is collected, and of one name the first |
| Descriptors.ReflectionIsAPrefix | briefcase/cli/grpc_engine.py:309-311 | the services skipped are those whose names start with "grpc.reflection." |
| Descriptors.CollectedFilesBuildAPool | briefcase/cli/grpc_engine.py:133-140 | with a server that returns what it is asked for and no import cycle, every collected file comes after all of its imports |

## Left out

- SHA-256, Ed25519, KMS signing and the `json` library: parameters, as above.
- Locks, `flock`, `fsync`, file modes, threads, sleeps and jitter: each locked operation is one atomic step. Windows, where there is no `flock`, is not modelled.
- `append_row` with `max_attempts` 0 fails an assertion instead of raising a conflict; the model calls both exhausted.
- `str.splitlines` in `load_entries` also splits at separators that never occur in an encoded entry; the model splits at newline and carriage return.
- Sqlite.SqliteBackend.AppendMany: deferred constraints and the columns that no query reads are not modelled.
- The read-only mode of the SQLite backend that compares in UTC at millisecond precision, and the Iceberg, Glue and kdb backends.
- Quota.TableStaysLean: limits of at least 1; with smaller limits a denied acquire also stores a window, which no prune follows.
- The fail-open exception path of the quota store, its `reset`, and negative or non-numeric policies.
- Gateway.DriveAnswers: the values of the function, the causes of errors and the constant token counts of hard-capped and throttled outcomes are not modelled.
- Gateway.CooldownsAreRespected: the gateway's clock, which dates the advisory deadline, and the store's clock are one clock here. Cancellation, deadlines, events and exporters are left out.
- Cache.CacheWrapper.Answer: `reset`, a negative `max_entries`, and callers that alter the returned result, which the cache shares with them.
- Policy.FieldMeans: an "in" operand that is not a list is an error here, where Python would test for substrings or keys; Python's equality of 1, 1.0 and True and of dictionaries in another order is not modelled.
- Spaces.IntersectionExactIff: NaN bounds are not modelled.
- Reading a policy row that no policy was published to: the model rejects fields of the wrong kind and ignores unknown ones, where Python keeps the first and rejects the second.
- `to_dict` and `from_dict` of bundles, decisions and bitemporal records.
- Descriptors.CollectFiles: errors of the remote call, which raise; an error response carries no files and is an empty answer here.
- A SQLite row is taken to read back the record it was written from; the JSON columns are not modelled.
- Framework handlers, exporters, OpenTelemetry, events, webhooks, other CLI verbs, MCP, lakeFS, bindings, RBAC and ABAC rules, sampling, retry arithmetic: input and output, glue, or easy next to the above.
