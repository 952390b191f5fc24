# VC Stack: a verified model

This project models the parts of VC Stack whose correctness is hardest to see from the code, and proves what
they promise. Each module follows one source file or one component; `dafny verify dfyconfig.toml` covers all of it.

| module | component |
|---|---|
| `Wrappers`, `Sequences` | optional values; sequences without repeats and their elements |
| `StringOrder`, `Text` | Go's string order and sorting; splitting, joining and searching strings |
| `ModuleGraph`, `ModuleSort`, `ModuleInit` | the management plane's module registry: dependency sort and ordered initialisation |
| `CircuitBreaker`, `BreakerRuns`, `BreakerTwin` | the circuit breaker, all interleavings of its calls, and the compute node's second breaker |
| `AuditChain` | the hash-chained audit log and its verifier |
| `Pagination`, `PageWalks` | cursor pagination; what a client collects by following markers |
| `Vrn` | resource names: printing, parsing, wildcard matching |
| `Naming` | slugs and DNS-safe names |
| `Idempotency` | the idempotency store and all interleavings of requests with the same key |
| `Abac` | attribute-based policy evaluation |
| `MicroVmPool` | the pool of pre-warmed Firecracker microVMs |
| `VncPorts` | VNC port allocation |
| `Budget` | budget thresholds and alerts |

## Main results

- **Module sort.** Kahn's algorithm with a sorted ready queue answers the lexicographically least topological order, and
  fails exactly when a name is registered twice, a dependency is not registered, or there is a dependency cycle (a closed
  walk along dependency entries). The answer does not depend on registration order or on the order in which Go visits maps.
- **Module initialisation.** On success the initialised set is the only set of modules that are wanted, whose factory
  succeeds and whose dependencies are in the set. Initialisation fails exactly when a core module is outside that set. Each
  factory runs at most once, after all its dependencies have succeeded.
- **Circuit breaker.** In every interleaving at most `MaxHalfOpenRequests + SuccessThreshold - 1` probes are in flight, and
  for every configuration some interleaving attains that number. The limit in the option's documentation,
  `MaxHalfOpenRequests`, therefore holds exactly when `SuccessThreshold` is 1 (`BreakerRuns.PlainLimitExactly`): a call
  admitted before the state change may complete in the half-open state and lower the counter. An open breaker stays open
  until it is reset or the timeout has passed since the latest recorded failure, late ones included.
- **Two breakers.** The package's breaker and the compute node's own breaker agree on all sequences of calls that do not
  overlap exactly when threshold and timeout are positive and the package closes after two successes.
- **Audit chain.** A recorded log verifies exactly when no stored event lost the link to its predecessor: the recorder writes
  `genesis` whenever the lookup of the previous entry fails, also when there is one. With a digest free of collisions on the
  log, the sequences of recorded entries that verify are exactly the stretches of the log.
- **Pagination.** For any distinct sort key, following the markers collects the sorted table exactly when the marker at each
  page boundary splits the rows before it from those behind it. The default order by creation time does not ensure that:
  rows are lost where identifiers run against it (`PageWalks.RowLost`). Where the key orders rows as the markers do, each
  row is collected once, in either direction, and walks come to an end exactly when the first marker handed out is not the
  empty string. For any table, lengths are bounded exactly when no walk is sent back to the first page.
- **Resource names.** Parsing inverts printing exactly on names without stray separators; matching decides inclusion of what
  patterns match; on arbitrary names matching is transitive below a name exactly when no component of it ends in two stars.
- **Slugs.** Every slug is a DNS label (section 2.1 of RFC 1123); the names left alone are exactly the labels without doubled
  hyphens; the replacement loop ends and squeezes hyphen runs; the whole is a one-pass normalisation.
- **Idempotency.** At most one handler per key runs at a time; a response is cached exactly from the latest success for the
  key until it is evicted, and lookups replay that response; every execution comes from a lookup that missed. Two handlers
  of a key may both succeed without an eviction between them; after any history no further handler starts before the
  response is evicted exactly when one is cached and no request for the key is between its lookup and its acquire.
- **Policies.** The decision is that of an applicable policy of least priority number; it is independent of the order of equal
  priorities exactly when those policies agree.
- **MicroVM pool.** Every VM the pool has dealt with is in exactly one of idle, claimed and destroyed. Maintenance keeps a VM
  exactly when it runs and is among the first `minIdle` running ones or has not expired; the others leave the
  registry and no longer run, unless killing one fails.
- **Budgets.** After any series of reports there is exactly one alert for each threshold that some report reached, on its own
  channel and with the spend of the first such report.

## Model

| member | source | states |
|---|---|---|
| ModuleSort.TopologicalSort | internal/management/module_registry.go:219-265 | the answer is the lexicographically least topological order of exactly the registered descriptors, or an error exactly when none exists |
| ModuleSort.CountEdges | internal/management/module_registry.go:225-236 | in-degrees count all dependency entries of a name, repeats included, and the dependents lists reverse the graph entry by entry |
| ModuleSort.CountDescriptor | internal/management/module_registry.go:228-236 | counting one more descriptor extends both maps to the graph with that descriptor |
| ModuleSort.IndexByName | internal/management/module_registry.go:220-223 | every registered name, and no other, leads to the descriptor registered last under it |
| ModuleSort.InitialQueue | internal/management/module_registry.go:238-244 | whatever the visiting order, the queue is the sorted list of the names without dependencies |
| ModuleSort.SettleDependents | internal/management/module_registry.go:252-258 | afterwards each in-degree is the number of entries not yet emitted and the sorted queue holds exactly the ready names |
| ModuleGraph.GreedyIsLeast | internal/management/module_registry.go:246-259 | taking the least ready name each time yields an order at most every other topological order |
| ModuleGraph.DryMeansUnsortable | internal/management/module_registry.go:261-263 | running out of ready names early means an unregistered dependency or a cycle |
| ModuleGraph.StuckSetHasCycle | internal/management/module_registry.go:261-263 | a non-empty set in which every name depends on a name of the set contains a closed walk |
| ModuleGraph.OrderImpliesAcyclic | internal/management/module_registry.go:261-264 | where a topological order exists there is no cycle and every dependency is registered |
| ModuleSort.SortSucceedsExactlyWhenSortable | internal/management/module_registry.go:219-265 | success if and only if names are distinct, dependencies registered and the graph acyclic |
| ModuleSort.SortIsDeterministic | internal/management/module_registry.go:239-258 | registering the same descriptors in another order gives the same answer, error or not |
| StringOrder.AtMostIsDictionary | internal/management/module_registry.go:244 | strings are sorted as in a dictionary: a prefix comes first, otherwise the first character that differs decides |
| ModuleInit.ModuleRegistry.DependenciesMet | internal/management/module_registry.go:184-193 | true exactly when every dependency is initialised |
| ModuleInit.ModuleRegistry.InitializeAll | internal/management/module_registry.go:164-216 | sort errors; the solution property of the initialised set; failure exactly when a core module is outside it, naming the first one in dependency order and whether a dependency or its factory failed; the order and uniqueness of factory calls |
| ModuleInit.InitializedExactly | internal/management/module_registry.go:74-79 | after success a module is initialised if and only if it is core, without flag, or its flag unset or true, its factory succeeds and its dependencies are initialised |
| ModuleInit.SolutionExistsUniquely | internal/management/module_registry.go:176-215 | sortable descriptors have exactly one set that is wanted, succeeds and is closed under dependencies |
| ModuleInit.SettleIsSolution | internal/management/module_registry.go:177-213 | deciding the modules in dependency order yields such a set |
| ModuleInit.CoreMissing | internal/management/module_registry.go:194-205 | a core module that cannot start is in no such set |
| CircuitBreaker.WithDefaults | pkg/circuitbreaker/breaker.go:78-94 | positive settings are kept; the others become 5 failures, 2 successes, 30 seconds and 1 probe |
| CircuitBreaker.Breaker.BeforeRequest | pkg/circuitbreaker/breaker.go:188-210 | admission and new state are those of the specified locked step; an open circuit is reported exactly while the timeout has not passed, too many requests exactly when half-open with the counter at its limit |
| CircuitBreaker.Breaker.AfterRequest | pkg/circuitbreaker/breaker.go:213-226 | completion moves the state as the specified locked step does |
| CircuitBreaker.Breaker.OnFailure | pkg/circuitbreaker/breaker.go:229-244 | records the failure and opens at the threshold, or at once when half-open |
| CircuitBreaker.Breaker.OnSuccess | pkg/circuitbreaker/breaker.go:247-260 | clears the count when closed, closes after enough successes when half-open |
| CircuitBreaker.Breaker.CurrentState | pkg/circuitbreaker/breaker.go:145-150 | reading the state performs the timed transition first |
| CircuitBreaker.Breaker.CheckAutoTransition | pkg/circuitbreaker/breaker.go:263-267 | open becomes half-open once the timeout has passed since the last failure |
| CircuitBreaker.Breaker.SetState | pkg/circuitbreaker/breaker.go:270-281 | a change of state clears all counters, and no change does nothing |
| CircuitBreaker.Breaker.Reset | pkg/circuitbreaker/breaker.go:293-297 | forces the closed state |
| BreakerRuns.ProbeInvariantHolds | pkg/circuitbreaker/breaker.go:199-219 | in every interleaving the probes in flight are the counter plus the earlier calls completed meanwhile, which the successes bound |
| BreakerRuns.ProbesBounded | pkg/circuitbreaker/breaker.go:188-281 | the counter is zero outside half-open and within fixed bounds inside, and so are the probes in flight |
| BreakerRuns.ProbeBoundAttained | pkg/circuitbreaker/breaker.go:199-219 | for every configuration a run reaches the bound on probes exactly |
| BreakerRuns.PlainLimitExactly | pkg/circuitbreaker/breaker.go:70-71 | the documented limit on concurrent probes holds in all runs if and only if the success threshold is one |
| BreakerRuns.FailureTimeRecorded | pkg/circuitbreaker/breaker.go:229-233 | the recorded failure time is that of the latest failed completion, in whatever state it came |
| BreakerRuns.OpenLeftExactly | pkg/circuitbreaker/breaker.go:197-198 | an open breaker leaves that state exactly on reset or after the timeout since the latest failure, and refuses calls until then |
| BreakerRuns.RefusedExactly | pkg/circuitbreaker/breaker.go:188-210 | after any run a call is refused as open exactly while open and within the timeout of the latest failure, and for too many requests exactly when half-open with as many counted probes as allowed |
| BreakerRuns.NoAdmissionBeforeTimeout | pkg/circuitbreaker/breaker.go:262-267 | between opening and the next admission lies a step at which the timeout had passed since the latest failure |
| BreakerRuns.HalfOpenIsLate | pkg/circuitbreaker/breaker.go:240-242 | with a monotone clock every half-open state is at least the timeout after the latest failure |
| BreakerRuns.ClosedCountsTrailing | pkg/circuitbreaker/breaker.go:236-253 | while closed the failure count is the trailing run of failed completions and below the threshold |
| BreakerRuns.OpensExactly | pkg/circuitbreaker/breaker.go:235-239 | a closed breaker opens exactly when a failure makes that run as long as the threshold |
| BreakerTwin.NodeBreaker.Execute | internal/compute/resources.go:299-352 | a whole call admits, fails and moves the state as specified |
| BreakerTwin.RelatedStep | internal/compute/resources.go:299-352 | related breakers treat a call alike and stay related, the compute breaker's count staying at or above the threshold unless closed |
| BreakerTwin.EquivalentExactly | internal/compute/resources.go:286-352 | both breakers show callers the same if and only if threshold and timeout are positive and the package closes after two successes |
| AuditChain.AuditService.RecordEvent | internal/management/audit/service.go:296-328 | the table grows by one linked and signed entry unless the insert fails |
| AuditChain.DigestCoversFields | internal/management/audit/service.go:311-318 | on fields without bars the digested text determines, and is determined by, the eight recorded fields and the previous hash |
| AuditChain.AuditService.VerifyChain | internal/management/audit/service.go:331-355 | intact exactly when all signatures and links in the window hold, otherwise the first faulty entry and its fault; an empty window and an intact one are reported as such |
| AuditChain.WindowIsFirst | internal/management/audit/service.go:333 | the rows verified are the first `limit`, or all when there are fewer or the limit is negative |
| AuditChain.AppendVerifies | internal/management/audit/service.go:303-309 | storing an event keeps the chain whole exactly when it links to the last entry |
| AuditChain.LogVerifiesExactly | internal/management/audit/service.go:305-309 | a recorded log verifies if and only if no stored event lost its link |
| AuditChain.LostLinkDetected | internal/management/audit/service.go:303-309 | two events, the second recorded while the first cannot be read, leave a log that does not verify |
| AuditChain.RecordedLogVerifies | internal/management/audit/service.go:331-354 | such a log verifies under every limit, failed inserts included, whatever the digest |
| AuditChain.HashesDistinct | internal/management/audit/service.go:311-318 | no two entries of a recorded log have the same hash |
| AuditChain.VerifiedIsStretch | internal/management/audit/service.go:338-354 | a sequence of recorded entries verifies if and only if it is a contiguous stretch of the log in order |
| AuditChain.RearrangementDetected | internal/management/audit/service.go:347-352 | of all rearrangements of a log only the log itself verifies |
| AuditChain.GapDetected | internal/management/audit/service.go:347-352 | a log with an inner stretch cut out does not verify |
| Pagination.ParseParams | pkg/pagination/pagination.go:37-64 | the limit is the requested one clamped to 1..1000, and 20 when absent, unreadable or not positive; the direction becomes `desc` unless it is `asc` |
| Pagination.ApplyToQuery | pkg/pagination/pagination.go:68-90 | order, cursor and limit clauses of the page query for any parameters; the cursor descends for every direction but `asc` |
| Pagination.SortedTableExists | pkg/pagination/pagination.go:71-75 | a table with distinct sort keys has exactly one sorted listing, of which the other theorems speak |
| Pagination.OnlyListing | pkg/pagination/pagination.go:71-75 | rows sorted by a distinct key are the only listing that an order clause allows |
| Pagination.PageIsStretch | pkg/pagination/pagination.go:71-87 | whatever listing the database picks, behind a marker that splits the table the page is the next stretch of it with one extra row |
| Pagination.NextMarkerAt | pkg/pagination/pagination.go:95-110 | a page announces more exactly when rows follow it; it then hands out the marker of its last row and otherwise the empty one, and passes on rows and limit |
| PageWalks.CollectsExactly | pkg/pagination/pagination.go:68-110 | for any distinct sort key, some complete walk collects the sorted table if and only if each marker handed out at a page boundary splits the rows before it from those behind it; then every complete walk does, lengths are bounded and every walk can be completed |
| PageWalks.CollectedIsSplit | pkg/pagination/pagination.go:77-101 | a complete walk that collects the table has split it at every page boundary |
| PageWalks.RowLost | pkg/pagination/pagination.go:38-42 | in the default order, two rows of which every complete walk fails to collect the table and one never sees the second row |
| PageWalks.WalkLength | pkg/pagination/pagination.go:86-101 | over such a table a walk has at most the pages the rows need, and is complete exactly when it has as many |
| PageWalks.BoundedExactly | pkg/pagination/pagination.go:77-101 | for any table, sort key and positive limit the length of walks is bounded if and only if no walk is handed a marker that asks for the first page again; the bound is then one more than the rows |
| PageWalks.MarkedNeverRestarts | pkg/pagination/pagination.go:78-84 | where no row has an empty marker, no walk asks for the first page again |
| PageWalks.FollowingSplitsExactly | pkg/pagination/pagination.go:78-84 | where the sort key orders rows as their markers do, the markers split the table if and only if the first one handed out is not empty |
| PageWalks.WalkCollectsTable | pkg/pagination/pagination.go:68-110 | with such a key a complete walk collects the sorted table, each row once |
| PageWalks.WalkEndsExactly | pkg/pagination/pagination.go:78-101 | with such a key, a walk can be completed, and the length of all walks is bounded, if and only if the first marker is not empty; then every walk can be completed and none has more pages than rows plus one |
| PageWalks.EndlessTable | pkg/pagination/pagination.go:78-101 | a table of two rows, one with an empty marker, on which no walk ends |
| PageWalks.LoopingPage | pkg/pagination/pagination.go:78-101 | with an empty first marker every page is the first page again |
| Vrn.ParseInvertsToString | pkg/iam/vrn.go:73-137 | parsing a printed name gives it back if and only if its parts hold no stray separators and are not empty |
| Vrn.ToStringInvertsParse | pkg/iam/vrn.go:102-162 | printing a parsed string gives it back exactly when it is no shorthand; parsing again gives the same name |
| Vrn.ParsedIsPrintable | pkg/iam/vrn.go:115-162 | every accepted string denotes a name that prints unambiguously |
| Vrn.ParsesExactly | pkg/iam/vrn.go:102-162 | a string parses to a name if and only if the name is printable and the string is its printed form or one of the two starred shorthands |
| Vrn.ShorthandsAccepted | pkg/iam/vrn.go:104-106 | a single star is the universal name, and a starred resource part stands for any type and identifier |
| Vrn.PartCountExactly | pkg/iam/vrn.go:110-113 | a string is rejected for its parts if and only if it has fewer than four colons and is not a star |
| Vrn.RejectedExactly | pkg/iam/vrn.go:117-128 | five parts are rejected for the prefix, the partition or the resource part, in that order |
| Vrn.ResourceRejectedExactly | pkg/iam/vrn.go:141-162 | a resource part is rejected for a missing slash, an empty type or an empty identifier, each in exactly one case |
| Vrn.ComponentExactly | pkg/iam/vrn.go:189-202 | a pattern ending in a star matches exactly the values that begin with the rest of it, any other pattern only itself |
| Vrn.SplitResourceShape | pkg/iam/vrn.go:141-162 | an accepted resource part splits at its first slash into a non-empty type and identifier |
| Vrn.MatchesDecidesCovering | pkg/iam/vrn.go:177-202 | between patterns, matching holds if and only if every concrete resource matched by the second is matched by the first |
| Vrn.MatchesIsPreorder | pkg/iam/vrn.go:177-202 | on patterns matching is reflexive and transitive with the universal name on top |
| Vrn.TransitiveExactly | pkg/iam/vrn.go:189-202 | for one component on arbitrary strings, matching is transitive below a pattern if and only if the pattern does not end in two stars |
| Vrn.MatchesTransitiveExactly | pkg/iam/vrn.go:177-202 | on arbitrary names matching is transitive below a name if and only if none of its four matched components ends in two stars |
| Naming.GenerateSlug | pkg/naming/naming.go:296-339 | the steps of the source compute the one-pass slug |
| Naming.Collapse | pkg/naming/naming.go:319-322 | the replacement loop ends and leaves every hyphen run as one hyphen |
| Naming.KeepSlugChars | pkg/naming/naming.go:310-317 | the builder keeps exactly the slug characters in order |
| Naming.TrimSqueezeIsOnePass | pkg/naming/naming.go:319-325 | squeezing then trimming equals a single pass that puts one hyphen between separated characters |
| Naming.SlugIsSlug | pkg/naming/naming.go:324-338 | every slug is a DNS label without doubled hyphens, the random fallback included |
| Naming.SlugFixesExactly | pkg/naming/naming.go:296-339 | a name is left alone if and only if it is such a label |
| Naming.SlugIdempotent | pkg/naming/naming.go:296-339 | slugging a slug changes nothing |
| Naming.SlugOfTwoWords | pkg/naming/naming.go:300-308 | any separator between two slugs becomes a hyphen |
| Naming.SlugDropsOthers | pkg/naming/naming.go:310-317 | any other character between two slugs disappears |
| Naming.CharactersAre | pkg/naming/naming.go:300-314 | the characters kept are `a-z`, `0-9` and the hyphen, the separators space, underscore, dot, slash and backslash |
| Naming.LongSlugIsCut | pkg/naming/naming.go:327-331 | a longer slug is cut at 63 characters and loses a hyphen left at the end |
| Naming.FallbackExactly | pkg/naming/naming.go:333-336 | a name gets the random slug if and only if no character of it is a letter or digit in lower case |
| Naming.ValidateDnsName | pkg/naming/naming.go:237-277 | DNS-safe validation accepts exactly the DNS labels, and each reason for rejection applies in exactly the stated case |
| Naming.CodePointsAre | pkg/naming/naming.go:243-247 | the control characters by code point, and the bytes a character takes |
| Idempotency.MemoryStore.Set | pkg/idempotency/middleware.go:63-68 | caches the response and clears the mark in one step |
| Idempotency.MemoryStore.SetProcessing | pkg/idempotency/middleware.go:70-78 | succeeds exactly when the key was not marked, and leaves it marked |
| Idempotency.MemoryStore.ClearProcessing | pkg/idempotency/middleware.go:80-84 | clears the mark only |
| Idempotency.MemoryStore.Cleanup | pkg/idempotency/middleware.go:92-97 | removes exactly the responses older than a day |
| Idempotency.Middleware.constructor | pkg/idempotency/middleware.go:134-145 | the initial state of the protocol |
| Idempotency.Middleware.CheckCache | pkg/idempotency/middleware.go:178-195 | the lookup step of the protocol, replaying what is cached |
| Idempotency.Middleware.AcquireMark | pkg/idempotency/middleware.go:197-205 | the acquire step of the protocol, with a conflict when the key is marked |
| Idempotency.Middleware.Complete | pkg/idempotency/middleware.go:218-234 | the finish step of the protocol: successes are cached, failures only clear the mark |
| Idempotency.Middleware.EvictExpired | pkg/idempotency/middleware.go:87-99 | the eviction step of the protocol |
| Idempotency.HandlersExclusive | pkg/idempotency/middleware.go:197-234 | in every interleaving a key is marked exactly while one of its handlers runs, and only successes are cached |
| Idempotency.ReplayAfterSuccess | pkg/idempotency/middleware.go:178-195 | a lookup after a success and before its eviction replays the response of the latest success, and the handler never runs |
| Idempotency.CachedExactly | pkg/idempotency/middleware.go:219-225 | in every interleaving a response is cached if and only if a handler of the key has succeeded and the latest success is not evicted since, and it is that response |
| Idempotency.EvictsExactly | pkg/idempotency/middleware.go:92-97 | a cleanup evicts a response if and only if it is more than 24 hours old |
| Idempotency.SuccessIsTwoHundreds | pkg/idempotency/middleware.go:219 | the responses cached are those with a status of the 200s |
| Idempotency.AcquireExactly | pkg/idempotency/middleware.go:197-205 | a request that missed runs its handler if no handler of the key runs, and is a conflict if one does |
| Idempotency.FinishExactly | pkg/idempotency/middleware.go:218-234 | a finished request has the status of its handler, frees the key and caches a success as it is |
| Idempotency.ExecutionsMissed | pkg/idempotency/middleware.go:178-216 | every execution comes from a lookup that missed, with every earlier success evicted in between |
| Idempotency.TwoExecutionsPossible | pkg/idempotency/middleware.go:179-198 | for every key there is an interleaving without evictions in which two handlers succeed |
| Idempotency.StartsExactly | pkg/idempotency/middleware.go:197-216 | a handler starts exactly when a request that missed acquires the mark of its key |
| Idempotency.NeverStartsAgainExactly | pkg/idempotency/middleware.go:178-234 | after any history, no further handler of a key starts before its response is evicted, whatever else is, if and only if one is cached and no request for the key is between its lookup and its acquire |
| Abac.Evaluate | internal/management/abac/service.go:126-155 | the decision of the first row that applies, or the default |
| Abac.MatchAction | internal/management/abac/service.go:168-176 | true exactly when some trimmed entry of the list is a star or the action |
| Abac.ListsExactly | internal/management/abac/service.go:168-176 | a list of comma-free entries lists exactly those entries without the blanks around them |
| Abac.TrimExactly | internal/management/abac/service.go:170 | trimming removes the white space around a text and nothing else |
| Abac.SpacesAre | internal/management/abac/service.go:170 | white space is that of Unicode |
| Abac.EvaluateConditions | internal/management/abac/service.go:178-186 | true exactly when every condition holds |
| Abac.OperatorsDecide | internal/management/abac/service.go:207-240 | what each operator decides, malformed lists and unknown operators included |
| Abac.ResourcePatterns | internal/management/abac/service.go:157-166 | a star matches everything, a type wildcard exactly the resources of the type, any other pattern only itself |
| Abac.KeyReachesTag | internal/management/abac/service.go:188-198 | a tag is reached under its full name, dots included |
| Abac.KeyReachesUser | internal/management/abac/service.go:199-200 | a user attribute is reached by its name up to the first dot |
| Abac.KeyReachesRequest | internal/management/abac/service.go:201-202 | a request property is reached by its name up to the first dot |
| Abac.KeyReachesNothing | internal/management/abac/service.go:188-205 | keys without a dot, of other kinds, or of the resource but not its tags resolve to nothing |
| Abac.MoreConditionsShrink | internal/management/abac/service.go:140-145 | added conditions keep exactly the requests that also meet them |
| Abac.ResultIsLeading | internal/management/abac/service.go:126-155 | the decision is that of an enabled applicable policy of least priority number, allowing exactly when its effect is `allow`; the default, which allows, only if none applies |
| Abac.OrderIrrelevantExactly | internal/management/abac/service.go:128-155 | the answer is independent of the order of equal priorities if and only if the leading policies agree on allowing |
| Abac.DistinctPrioritiesDecide | internal/management/abac/service.go:128-155 | distinct priorities among the applicable policies determine the whole result |
| MicroVmPool.Pool.constructor | internal/compute/firecracker/pool.go:63-85 | an empty consistent pool that knows no VM; positive settings are kept, the others become 10, 2 and 5 minutes |
| MicroVmPool.Pool.Claim | internal/compute/firecracker/pool.go:97-112 | takes the first running idle VM, or none exactly when none runs; no VM is lost |
| MicroVmPool.Pool.Release | internal/compute/firecracker/pool.go:115-131 | returns the VM or kills and unregisters it when full; the pool stays consistent exactly when the VM was not idle |
| MicroVmPool.Pool.Examine | internal/compute/firecracker/pool.go:187-206 | whether maintenance keeps a VM; one that is not kept leaves the registry and no longer runs if it can be killed |
| MicroVmPool.Pool.Maintain | internal/compute/firecracker/pool.go:177-219 | the kept VMs, in order; every dropped VM leaves the registry, is accounted for as destroyed and no longer runs if it can be killed |
| MicroVmPool.Pool.Stop | internal/compute/firecracker/pool.go:162-174 | every idle VM is killed, leaves the registry and is accounted for as destroyed |
| MicroVmPool.KeptExactly | internal/compute/firecracker/pool.go:186-207 | a VM is kept if and only if it runs and is among the first `minIdle` running ones or has not expired |
| MicroVmPool.KeptEnough | internal/compute/firecracker/pool.go:183-207 | at least `minIdle` VMs survive, or all that run |
| VncPorts.VncPortAllocator.Find | internal/compute/vm/vnc_port_allocator.go:42-47 | finds the VM's port if it has one, in whatever order the table is visited |
| VncPorts.VncPortAllocator.Allocate | internal/compute/vm/vnc_port_allocator.go:37-65 | the port held already, else the lowest port neither used nor busy, else failure because there is none |
| VncPorts.VncPortAllocator.Release | internal/compute/vm/vnc_port_allocator.go:68-79 | removes exactly the VM's port |
| VncPorts.VncPortAllocator.PortFor | internal/compute/vm/vnc_port_allocator.go:82-92 | the VM's port, or 0 exactly when it has none |
| VncPorts.RunConsistent | internal/compute/vm/vnc_port_allocator.go:37-79 | in every run ports are in range and ports and VMs correspond one to one |
| VncPorts.PortKept | internal/compute/vm/vnc_port_allocator.go:41-47 | a VM keeps its port until it is released |
| VncPorts.AllocationUnique | internal/compute/vm/vnc_port_allocator.go:37-65 | the answer and the new table are determined |
| VncPorts.ReleaseUndoesAllocate | internal/compute/vm/vnc_port_allocator.go:59-79 | releasing a newly allocated VM restores the table |
| Budget.BudgetService.UpdateSpend | internal/management/budget/service.go:135-153 | unknown budgets are an error; otherwise the alerts emitted and the new budget |
| Budget.EvaluateThresholds | internal/management/budget/service.go:142-151 | the loop emits an alert for, and marks, exactly the thresholds that fire |
| Budget.TriggeredExactly | internal/management/budget/service.go:144-150 | after any series of reports a threshold is triggered if and only if some report reached it |
| Budget.EverReachedIsMax | internal/management/budget/service.go:143-145 | some report reached a threshold if and only if the greatest percentage did |
| Budget.OneAlertPerThreshold | internal/management/budget/service.go:144-150 | after any series of reports the alerts are, as a multiset, one for each reached threshold, on its own channel and with the spend of the first report that reached it |
| Budget.DueNext | internal/management/budget/service.go:144-150 | the alerts due after one more report are those due before and those it emits |
| Budget.SpendIsLast | internal/management/budget/service.go:140 | the spend on record is the one reported last |
| Budget.ZeroLimit | internal/management/budget/service.go:143-145 | with a zero limit every threshold is reached by positive spend and none otherwise |

## Readings of the source

- Go compares strings by bytes; on UTF-8 text that is the order of code points, which `StringOrder` uses. Text that is not
  valid UTF-8 is not modelled.
- Times are integers on one clock, read once per locked step. Factories, handlers, guarded functions, port probes, JSON
  decoding, number parsing, lower-casing, random text, the digest and the signature are parameters.
- The documentation of `MaxHalfOpenRequests` promises a limit on concurrent probes that the code does not keep for success
  thresholds above one; the model follows the code.
- What a database makes of a sort direction other than `asc` and `desc` is left open; parsed parameters have no other.
- The text of the default limit, `20`, is taken to be read as the number 20.
- By default pages are ordered by creation time while the marker is an identifier; the code then collects the table only
  when the markers split it, and the model follows the code.
- A page carries the extra row fetched to detect more; a client that follows the markers takes the first `limit` rows.
- The half-open counter of the source is a 32-bit integer; `BreakerRuns.ProbesBounded` keeps it between
  `1 - SuccessThreshold` and `MaxHalfOpenRequests`, so it does not wrap while both settings fit in 32 bits.

## Left out

- The circuit breaker's metrics, state-change callbacks and the manager's map of breakers: they do not affect decisions.
- Functions and handlers that panic: the completing step of a call is not deferred in the source and is then skipped.
- Overlapping calls on the compute node's breaker.
- Module instances, logging and the service objects that factories build.
- The audit verifier's query failing, which the source treats as an empty log, and the entry fields outside the digest.
- AuditChain.VerifiedIsStretch: does not state that edits of entry contents or the loss of a first or last stretch are
  detected, because the verifier recomputes no digest and has no anchor at either end.
- PageWalks.CollectsExactly: assumes that rows have different sort keys; databases that list rows with equal keys differently
  from page to page are covered by `PageWalks.BoundedExactly` only.
- Name validation in the general and identifier modes, resource identifiers with their table of prefixes, and automatic names.
- The idempotency middleware's choice of requests it covers, the composite key, and replayed headers.
- Idempotency.HandlersExclusive: assumes that handlers return.
- Creation, listing, toggling and deletion of policies and budgets; failing database writes.
- MicroVmPool.Pool.Release: models a VM's client as owned by the VM; clients shared by two VMs are not modelled.
- VM creation, snapshots, function invocation and the recovery of processes at start-up.
- Budget.EvaluateThresholds: models amounts as reals, not floating-point numbers, except for the quotient by zero, and stores
  the emitted alerts and marked rows after the loop rather than one by one.
- HTTP handlers, command-line tools, web console, SDKs, QEMU, OVN, etcd, Kafka, Redis and configuration.
