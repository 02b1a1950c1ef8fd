# Verified models of AdGuard DNS

Dafny models of eight components of AdGuard DNS, with proofs of what they promise.
`dafny verify dfyconfig.toml` checks all of it.

| component | files |
|---|---|
| ECS-aware cache (`internal/ecscache`, `internal/agdcache`, `internal/dnsmsg/dnsmsg.go`) | `DnsValues`, `MsgOps`, `EcsOption`, `LruCache`, `EcsCache`, `EcsServe`, `EcsCacheRuns`, `EcsAgreement` |
| pooled message cloner (`internal/dnsmsg`) | `DnsHeap`, `DnsCopy`, `Cloner`, `ClonerRuns`, `HintMemory` |
| TCP query pipeline and framing (`internal/dnsserver`) | `TcpPipeline`, `Framing` |
| connection limiter (`internal/connlimiter`) | `ConnLimiter` |
| billing recorder (`internal/billstat`) | `Billing`, `BillingRuns` |
| Damerau-Levenshtein calculator (`internal/agdalg`) | `Levenshtein` |
| human-readable IDs (`internal/agd/humanid.go`) | `Utf8`, `HumanId` |
| bind-to-device index (`internal/bindtodevice`) | `NetIp`, `BindToDevice` |

## Main results

- **The cache isolates.** In every run, whatever the upstream answers and however the lookups of its two caches
  interleave with other requests, a reply was stored for the same name, type, class and DO bit, and for the client's
  own subnet or as independent of subnets, and has the records of that response (`EcsCacheRuns.RunIsolates`); a lookup
  misses exactly if nothing live is there for it (`EcsCacheRuns.AskedOutcome`). A response serves a later request
  exactly if it is of a kind that is kept, the question is the same and it is not too old (`EcsAgreement.PairHitIff`),
  and on a miss the client is told of the upstream's own answer (`EcsCacheRuns.AnsweredReply`).
- **The caches are least-recently-used.** Storing other keys drops a used one exactly when they are as many as there is
  room for (`LruCache.DroppedIff`), and looking a key up saves it (`LruCache.LookupSaves`).
- **The cache agrees with the upstream**, up to what its key ignores. An upstream that reports honest scopes would have
  told each client the same, with its own subnet, when the item was stored, provided that a response and a lookup that
  may share an item agree on the CD bit and on whether their subnets have length zero (`EcsAgreement.RunAgrees`). For
  a response and a lookup that condition is exact: every honest upstream is agreed with if and only if it holds
  (`EcsAgreement.AlikeIff`).
- **Cloned messages are values.** On a real heap with pools that hold stale objects, any run of Clone, Dispose and TTL
  overwrites has the effect it would have on plain values, so no message ever changes behind its owner's back
  (`ClonerRuns.Execute`). Disposing of a message the cloner did not make is safe exactly if its addresses are spaced
  (`HintMemory.PutIsSafeIff`).
- **Permits.** Over all interleavings of accepts, tasks, failures and panics the permits balance exactly
  (`TcpPipeline.ExactAccounting`), and how a message's statements turn out decides what becomes of its connection
  (`TcpPipeline.CallEnds`).
- **Connection limit.** The counter is exact and hysteretic over all listeners and interleavings
  (`ConnLimiter.CounterCounts`, `ConnLimiter.NothingAdmittedUntilResume`), for the code itself
  (`ConnLimiter.Limiter.Execute`).
- **Billing.** No query is lost or counted twice (`BillingRuns.Conservation`), however uploads overlap and although
  records are shared between batches and changed in place (`BillingRuns.Execute`).
- **Distance** is the minimum cost over all edit scripts (`Levenshtein.DistIsMinimal`), computed in three dirty rows.
- **Normalization** keeps the letters and digits and rewrites what is between them by one rule, which leaves no choice
  (`HumanId.RewrittenUnique`), and `ParseNormalized` succeeds exactly when it should (`HumanId.ParseNormalized`).
- **Lookup** by local address is longest-prefix match (`BindToDevice.LookupIsLongestMatch`).

## Where the code does less than it seems

Each has a concrete case and the condition, exact unless said otherwise.

- A place that GeoIP does not know gets a subnet of length zero although its client did not decline, and shares a key
  with places that it knows (`EcsAgreement.UnknownPlaceDisagrees`). The key ignores the CD bit as well
  (`EcsAgreement.CheckingDisabledDisagrees`). The exact condition is in `EcsAgreement.AlikeIff`, and a simpler one that
  is enough in `EcsAgreement.ProperSubnetsAreAlike`.
- `putIPs` takes sixteen bytes from each address with that capacity. Addresses cut from one buffer, as `miekg/dns`
  unpacks IPv4 hints, then overlap in the pool (`HintMemory.FiveHints`, `HintMemory.PutIsSafeIff`,
  `HintMemory.UnpackedIsSpacedIff`).
- `acceptTCPMsg` returns nil when the pipeline semaphore cannot be acquired, which clears the error that the deferred
  release looks at: an active-request permit is lost each time (`TcpPipeline.TurnedAwayKeepsPermit`,
  `TcpPipeline.QuietIsFreeIff`). A panic inside the pool's Submit loses a wait-group count, and the connection never
  finishes (`TcpPipeline.SubmitPanicKeepsGroup`).
- `limitListener.increment` takes a slot even when the listener is already closed, and nobody gives it back
  (`ConnLimiter.SlipHappens`, `ConnLimiter.DocumentedCountIff`).
- With overlapping refreshes, a failed upload can put older data over newer (`BillingRuns.OverlapCanBeStale`,
  `BillingRuns.FreshIffOrderly`).
- `setECS` leaves the family of an option that is already there (`EcsOption.OtherFamilyFails`,
  `EcsOption.EcsRoundTripIff`). The cache never runs into it (`EcsServe.UpstreamSeesSubnet`,
  `EcsServe.ClientSeesItsSubnet`).
- The distance is the restricted one and violates the triangle inequality (`Levenshtein.TriangleFails`); it holds
  wherever the branch for transpositions is never taken (`Levenshtein.TriangleWithoutTransposition`, one direction only).
- The list of names that feign ECS support is searched with the client's spelling (`EcsServe.CapitalIsMissed`,
  `EcsServe.FakeIff`).
- The TTL loop of a cache hit overwrites the flags of an OPT record (`EcsServe.HitShowsDo`, `EcsServe.HitDoBit`).

## Assumptions

- The mutexes and atomics of the code make the steps of the state machines atomic: a step is a critical section, a
  semaphore operation, an atomic operation, or one call of a locked cache.
- `EcsAgreement` compares with an upstream that answers the message actually sent. It is `Honest` if it looks only at
  name (without regard to case), type, class, CD bit, DO bit and subnet (`LooksOnlyAtQuery`); if a response with scope
  zero, or for a listed name, is the same for all proper subnets, and likewise for all subnets of length zero
  (`ScopesAreHonest`); and if the DO bit only adds DNSSEC records (`DoIsAdditive`; `setECS` sets the bit upstream for
  clients without an OPT record). An upstream that tailors its answers can be all that (`EcsAgreement.TailorIsHonest`,
  `EcsAgreement.TailorTailors`), also one that repeats the client's spelling of the name. Agreement is about response
  code and records, apart from TTLs, OPT flags and the case of owner names. Everything outside `EcsAgreement` holds
  for any upstream.
- The GeoIP data, which may change with each request, the clock, network interfaces and uploads are parameters; they
  may fail. GeoIP subnets are valid, and masked where agreement is claimed.
- Integers are unbounded except where the width matters: `int32` query counts wrap around and message lengths are `uint16`.
- Third-party code is modelled by short contracts: pools as sets of objects with arbitrary contents, semaphores as
  counters whose acquisition may time out, and the absent semaphore as one that never fails, `simplelru` as a bounded
  list in order of use, `netip` arithmetic on values, and `SetRcode`, `IsEdns0` and `dns.Copy` of `miekg/dns` by what
  they do.

## Model

| member | source | states |
|---|---|---|
| `Levenshtein.DistIsMinimal` | internal/agdalg/levenshtein.go:36-90 | the distance is attained by some left-to-right script of keep, delete, insert, substitute and swap edits, and no script is cheaper |
| `Levenshtein.NoCheaperScript` | internal/agdalg/levenshtein.go:63-83 | for all pairs of prefixes, no script costs less than the recurrence |
| `Levenshtein.CheapestScript` | internal/agdalg/levenshtein.go:63-83 | for all pairs of prefixes, a script costs exactly the recurrence |
| `Levenshtein.DistSymmetric` | internal/agdalg/levenshtein.go:36-90 | the distance is symmetric although rows and columns are treated differently |
| `Levenshtein.DistZero` | internal/agdalg/levenshtein.go:36-90 | the distance is zero exactly for equal strings |
| `Levenshtein.OsaBounds` | internal/agdalg/levenshtein.go:63-83 | a distance lies between the length difference and the longer length |
| `Levenshtein.TriangleFails` | internal/agdalg/levenshtein.go:71-82 | counterexample: the restricted distance violates the triangle inequality |
| `Levenshtein.TriangleWithoutTransposition` | internal/agdalg/levenshtein.go:77-80 | the triangle inequality holds if the branch for transpositions is taken on neither leg |
| `Levenshtein.Compose` | internal/agdalg/levenshtein.go:71-82 | two scripts without swaps can be run into one at no extra cost |
| `Levenshtein.CellIsOsa` | internal/agdalg/levenshtein.go:71-82 | charging a transposition the substitution cost instead of one gives the same cell |
| `Levenshtein.DistContains` | internal/agdalg/levenshtein.go:113-116 | if one string contains the other, the distance is the length difference |
| `Levenshtein.HandleQuick` | internal/agdalg/levenshtein.go:103-122 | every shortcut gives the distance; none applies only to non-empty strings that do not contain each other |
| `Levenshtein.Calculator.NewRow` | internal/agdalg/levenshtein.go:127-137 | a row long enough, no longer pooled, with any contents |
| `Levenshtein.Calculator.FillRow` | internal/agdalg/levenshtein.go:63-83 | whatever the row held, it becomes the next row of the table |
| `Levenshtein.Calculator.Distance` | internal/agdalg/levenshtein.go:36-90 | three rotating pooled rows compute the distance, and the rows go back to the pool |
| `Utf8.DecodeKeepsAscii` | internal/agd/humanid.go:149-156 | ranging over the bytes of any string, well-formed or not, yields an ASCII rune exactly when that byte is there |
| `Utf8.DecodeRuneIs` | internal/agd/humanid.go:149-150 | decoding gives the rune whose UTF-8 encoding (section 3 of RFC 3629) comes first, or an error of width one if none does |
| `HumanId.NewHumanId` | internal/agd/humanid.go:45-65 | succeeds exactly on hostname labels of 1 to 63 bytes without three hyphens in a row |
| `HumanId.NewHumanIdLower` | internal/agd/humanid.go:73-94 | additionally no upper-case letter; otherwise the error names the first one |
| `HumanId.ToLowerIsValid` | internal/agd/humanid.go:97-99 | lowercasing a valid ID gives a valid lower-case ID and is idempotent |
| `HumanId.NormalizedIsValid` | internal/agd/humanid.go:146-172 | the normal form is a valid ID whenever there is a letter or digit, and empty otherwise |
| `HumanId.NormalizedFixesValid` | internal/agd/humanid.go:118-122 | normalization leaves every valid ID unchanged, so the fast path agrees with the slow one |
| `HumanId.CanonIsRewritten` | internal/agd/humanid.go:191-269 | before the cut, the letters and digits are those of the input in order, one or two hyphens between neighbours stay, anything else between them is one hyphen, and nothing is around them |
| `HumanId.RewrittenUnique` | internal/agd/humanid.go:191-269 | that description has one solution only |
| `HumanId.TwoNeighbours` | internal/agd/humanid.go:215-269 | two letters or digits with any gap between them keep an empty gap, one or two hyphens, and get one hyphen for anything else |
| `HumanId.NormalizedIsNormalForm` | internal/agd/humanid.go:279-285 | the result is that text cut to 63 bytes, less the hyphens at its end |
| `HumanId.Normalizer.Next` | internal/agd/humanid.go:191-202 | one rune extends the kept text or the gap after it; a gap of one or two hyphens stays, any other becomes one hyphen |
| `HumanId.Normalizer.NextInitial` | internal/agd/humanid.go:205-212 | a leading gap is dropped |
| `HumanId.Normalizer.NextValid` | internal/agd/humanid.go:215-239 | in the valid state the buffer is the kept text and its gap |
| `HumanId.Normalizer.NextHyphen` | internal/agd/humanid.go:216-229 | the third hyphen spoils the gap |
| `HumanId.Normalizer.TruncateHyphens` | internal/agd/humanid.go:242-255 | the truncation never underflows and leaves the kept text |
| `HumanId.Normalizer.NextInvalid` | internal/agd/humanid.go:258-269 | after a spoilt gap a letter or digit is joined by one hyphen, which `TwoNeighbours` and `CanonIsRewritten` pin down |
| `HumanId.Normalizer.Write` | internal/agd/humanid.go:272-276 | appends the rune and shifts the two remembered ones |
| `HumanId.Normalizer.Finish` | internal/agd/humanid.go:279-285 | the cut and trimmed result depends on the kept text only |
| `HumanId.PendingStep` | internal/agd/humanid.go:191-269 | the declarative normal form seen from the middle of the input moves along with each rune |
| `HumanId.Normalize` | internal/agd/humanid.go:149-161 | the state machine computes the normal form of any byte string: its letters and digits in order, one or two hyphens kept between them and anything else made one hyphen, then cut and trimmed |
| `HumanId.ParseNormalized` | internal/agd/humanid.go:118-172 | succeeds exactly for 1 to 253 bytes with a letter or digit, with a valid result in normal form; the late rejections never happen; valid IDs are kept |
| `NetIp.MaskedUnique` | internal/bindtodevice/connindex_linux.go:15-16 | masked prefixes of one length that share an address are equal |
| `NetIp.ContainsIff` | internal/bindtodevice/connindex_linux.go:85-105 | a prefix contains exactly the addresses of its family from its masked one on, as many as its host bits can number |
| `NetIp.ContainsNested` | internal/bindtodevice/manager_linux.go:211-215 | a prefix that contains the first address of a masked one holds all its addresses exactly when it is not longer |
| `BindToDevice.BeforeIsStrictTotal` | internal/bindtodevice/connindex_linux.go:25-37 | the comparison is a strict total order and zero exactly on equal subnets |
| `BindToDevice.BeforeIff` | internal/bindtodevice/connindex_linux.go:25-37 | more bits come first, then IPv4 before IPv6, then the lower address |
| `BindToDevice.InsertSorted` | internal/bindtodevice/connindex_linux.go:43-59 | insertion keeps the index strictly sorted, hence free of duplicates |
| `BindToDevice.SortedUnique` | internal/bindtodevice/connindex_linux.go:15-16 | a strictly sorted index is determined by its set of subnets |
| `BindToDevice.BinarySearch` | internal/bindtodevice/connindex_linux.go:48-51 | the place found splits the index, and found tells whether the subnet is there |
| `BindToDevice.InsertChan` | internal/bindtodevice/connindex_linux.go:43-59 | fails exactly for a registered subnet; otherwise the channel is inserted and the others stay |
| `BindToDevice.FindChan` | internal/bindtodevice/connindex_linux.go:85-93 | the channel of the first subnet that contains the address, or nil if there is none |
| `BindToDevice.FirstIsLongest` | internal/bindtodevice/connindex_linux.go:85-105 | the first match in a sorted index of masked subnets is the unique longest one |
| `BindToDevice.LookupIsLongestMatch` | internal/bindtodevice/connindex_linux.go:43-105 | after any registrations of masked subnets, lookup is longest-prefix match |
| `BindToDevice.RegistrationOrderIrrelevant` | internal/bindtodevice/connindex_linux.go:43-81 | the same subnets registered in any order, with repetitions, give the same index |
| `BindToDevice.ConnIndex.AddPacketConn` | internal/bindtodevice/connindex_linux.go:43-59 | inserts in order or refuses a registered subnet without a change |
| `BindToDevice.ConnIndex.AddListener` | internal/bindtodevice/connindex_linux.go:65-81 | inserts in order or refuses a registered subnet without a change |
| `BindToDevice.ConnIndex.PacketConn` | internal/bindtodevice/connindex_linux.go:85-93 | returns the longest-prefix match among the packet connections, or nil if there is none |
| `BindToDevice.ConnIndex.Listener` | internal/bindtodevice/connindex_linux.go:97-105 | returns the longest-prefix match among the listeners, or nil if there is none |
| `BindToDevice.ConnIndex.AddBoth` | internal/bindtodevice/manager_linux.go:149-180 | TCP and UDP indexes keep the same subnets in the same order, so the second insertion never fails |
| `BindToDevice.ValidateIfaceSubnet` | internal/bindtodevice/manager_linux.go:195-218 | passes exactly for masked subnets whose address lies in an interface subnet that is not longer |
| `BindToDevice.ValidatedIsInside` | internal/bindtodevice/manager_linux.go:195-218 | passes exactly when one interface subnet holds every address of the subnet |
| `BindToDevice.Manager.Add` | internal/bindtodevice/manager_linux.go:61-99 | succeeds exactly for a known interface, a new ID and a new interface and port; a failure changes nothing |
| `BindToDevice.Manager.ListenConfig` | internal/bindtodevice/manager_linux.go:129-191 | succeeds exactly for a known ID and a valid new subnet; which error otherwise; all other subnets stay |
| `Billing.RuntimeRecorder.Record` | internal/billstat/runtime.go:70-99 | one record object per device, updated in place, with int32 wrap-around |
| `Billing.RuntimeRecorder.ResetRecords` | internal/billstat/runtime.go:133-142 | the batch is everything pending, and nothing stays |
| `Billing.RuntimeRecorder.MergeOne` | internal/billstat/runtime.go:150-156 | current data wins and the counts add up |
| `Billing.RuntimeRecorder.RemergeRecords` | internal/billstat/runtime.go:146-159 | in whatever order the map is visited, the result is the merge of both maps |
| `Billing.RuntimeRecorder.Refresh` | internal/billstat/runtime.go:106-129 | a failed upload restores the records, a successful one leaves none |
| `Billing.RemergeStep` | internal/billstat/runtime.go:150-156 | merging a batch entry by entry is merging it at once |
| `BillingRuns.Conservation` | internal/billstat/runtime.go:70-159 | in every interleaving, calls equal queries uploaded, in flight and pending, modulo 2^32 |
| `BillingRuns.ExactConservation` | internal/billstat/runtime.go:70-159 | exactly so for a device below the int32 limit |
| `BillingRuns.UploadsSettleOnce` | internal/billstat/runtime.go:106-129 | beginning an upload takes all pending records, and its success or failure settles the batch once |
| `BillingRuns.Execute` | internal/billstat/runtime.go:70-159 | any interleaving run by the code has the pending records and the batches in flight of the function that the laws are about; a batch in flight is never changed |
| `BillingRuns.FreshIffOrderly` | internal/billstat/runtime.go:144-156 | pending records always carry the latest data if and only if no failed batch brings back a device that a later batch holds and the pending records do not |
| `BillingRuns.DisorderlyIsStale` | internal/billstat/runtime.go:150-156 | one such failure after an orderly run leaves stale data |
| `BillingRuns.OneAtATimeIsOrderly` | internal/billstat/runtime.go:106-129 | one refresh at a time is always orderly |
| `BillingRuns.RecordsAreGenuine` | internal/billstat/runtime.go:70-99 | every record carries the data of one Record call for its device |
| `BillingRuns.PendingShowsLatestQuery` | internal/billstat/runtime.go:70-159 | with one refresh at a time, a pending record shows the device's latest query |
| `BillingRuns.OverlapCanBeStale` | internal/billstat/runtime.go:144-156 | counterexample: two overlapping refreshes, the first of which fails |
| `ConnLimiter.Counter.TryIncrement` | internal/connlimiter/counter.go:19-28 | takes a slot exactly if accepting, and stops accepting at the stop value |
| `ConnLimiter.Counter.Release` | internal/connlimiter/counter.go:31-35 | gives a slot back and resumes at the resume value |
| `ConnLimiter.LimitListener.AcceptTurn` | internal/connlimiter/listener.go:82-105 | one turn of the waiting loop: the counter is tried first, then closedness decides |
| `ConnLimiter.LimitListener.Close` | internal/connlimiter/listener.go:121-140 | only the first close succeeds |
| `ConnLimiter.LimitConn.Claim` | internal/connlimiter/conn.go:33-35 | exactly one caller wins the compare-and-swap |
| `ConnLimiter.LimitConn.Finish` | internal/connlimiter/conn.go:37-50 | the winner gives the slot back |
| `ConnLimiter.CounterIsExact` | internal/connlimiter/listener.go:46-140 | in every run the counter stays within stop, is consistent with the accepting flag and equals the slots held |
| `ConnLimiter.NeverUnderflows` | internal/connlimiter/counter.go:31-35 | whoever decrements finds a positive counter |
| `ConnLimiter.ReleasedOnce` | internal/connlimiter/conn.go:30-50 | a connection's slot is given back exactly once, however often it is closed |
| `ConnLimiter.ClosingGivesBack` | internal/connlimiter/conn.go:30-50 | in every reachable state the last step of closing lowers the counter by one, and no other step of it does |
| `ConnLimiter.AcceptEnds` | internal/connlimiter/listener.go:60-77 | an accept that ends in a connection keeps its slot, one that ends in an error gives it back |
| `ConnLimiter.AcceptsIffNotBlocked` | internal/connlimiter/counter.go:19-35 | the flag is off exactly from reaching stop until falling to resume |
| `ConnLimiter.GrantsIffGrows` | internal/connlimiter/listener.go:82-105 | the counter grows exactly when a waiting call tries while not blocked |
| `ConnLimiter.NothingAdmittedUntilResume` | internal/connlimiter/counter.go:19-35 | after stop, nothing is admitted until the counter has fallen to resume |
| `ConnLimiter.CounterCounts` | internal/connlimiter/listener.go:46-140 | the counter is open and closing connections, accepts in progress and slots slipped to closed listeners |
| `ConnLimiter.QuietIsFree` | internal/connlimiter/listener.go:46-140 | when every accept is over and every connection closed, the counter is the number of slips |
| `ConnLimiter.Limiter.Execute` | internal/connlimiter/listener.go:46-140 | any run of the counter, listeners and connections, step by step in any interleaving, is in the state that the laws are about |
| `ConnLimiter.DocumentedCountIff` | internal/connlimiter/listener.go:79-105 | it counts active connections only, as documented, exactly if no slot slipped |
| `ConnLimiter.SlipHappens` | internal/connlimiter/listener.go:90-104 | counterexample: Accept on a closed listener takes a slot for good |
| `TcpPipeline.BodyStepBalances` | internal/dnsserver/serverdnstcp.go:183-234 | each statement of acceptTCPMsg keeps the balance of permits held, used and lost |
| `TcpPipeline.ReturnStepBalances` | internal/dnsserver/error.go:97-106 | each deferred callOnError, as seen through the named result, keeps the balance |
| `TcpPipeline.TaskStepBalances` | internal/dnsserver/serverdnstcp.go:220-233 | a task gives everything back and loses nothing, panic or not |
| `TcpPipeline.CallEnds` | internal/dnsserver/serverdnstcp.go:183-234 | a whole call: its four outcomes decide exactly whether it stops the connection, which permits it takes, gives back or loses, and whether a task is started |
| `TcpPipeline.TaskEnds` | internal/dnsserver/serverdnstcp.go:220-233 | a whole task gives back both permits and its place in the group |
| `TcpPipeline.CallDecides` | internal/dnsserver/serverdnstcp.go:149-159 | an error or a panic ends the reading of the connection, anything else goes on to the next message |
| `TcpPipeline.ConnSteps` | internal/dnsserver/serverdnstcp.go:118-160 | a connection is opened once, read one message at a time, left between messages, and closed once it is left and its group is empty |
| `TcpPipeline.StepGoesThrough` | internal/dnsserver/serverdnstcp.go:183-234 | a statement takes effect unless it needs a permit that is not there |
| `TcpPipeline.CanTurnOutIff` | internal/dnsserver/serverdnstcp.go:134-137 | every statement can turn out in every way, but a semaphore that is not there cannot time out |
| `TcpPipeline.PermitsBalance` | internal/dnsserver/serverdnstcp.go:183-234 | in every interleaving, permits in use equal those held plus those lost |
| `TcpPipeline.ReleaseNeverUnderflows` | internal/dnsserver/serverdnstcp.go:209-224 | nothing is released twice |
| `TcpPipeline.WithinCapacity` | internal/dnsserver/serverbase.go:601-616 | the semaphores are never over-committed |
| `TcpPipeline.LossesAreFailures` | internal/dnsserver/serverdnstcp.go:211-216 | losses are exactly failed pipeline acquisitions and panics in Submit |
| `TcpPipeline.ExactAccounting` | internal/dnsserver/serverdnstcp.go:183-234 | active permits in use equal those of running tasks and accepts plus the pipeline failures; pipeline permits balance exactly |
| `TcpPipeline.QuietIsFreeIff` | internal/dnsserver/serverdnstcp.go:204-216 | when all work is over, all active permits are back if and only if no pipeline acquisition failed |
| `TcpPipeline.TurnedAwayKeepsPermit` | internal/dnsserver/serverdnstcp.go:211-215 | counterexample for every pipeline size: with the pipeline full one more message waits in vain, and when all are served its active permit is still taken |
| `TcpPipeline.SubmitPanicKeepsGroup` | internal/dnsserver/task.go:53-67 | counterexample: a panic in Submit gives both permits back and leaves the wait group at one, so that closing the connection waits for ever |
| `TcpPipeline.ConnsAreSound` | internal/dnsserver/serverdnstcp.go:118-160 | a connection has at most one message being accepted, and none once it is closing |
| `TcpPipeline.ClosedIsIdle` | internal/dnsserver/serverdnstcp.go:118-129 | a connection is closed only when none of its messages is being accepted or served |
| `Framing.CutFrame` | internal/dnsserver/serverdnstcp.go:287-301 | a frame cut short is never read as a message |
| `Framing.FrameBytes` | internal/dnsserver/msg.go:33-40 | a frame is the length in two bytes, high byte first, and the message |
| `Framing.ReadBytes` | internal/dnsserver/serverdnstcp.go:287-301 | the first message has the length that the first two bytes say and follows them |
| `Framing.StreamRoundTrip` | internal/dnsserver/serverdnstcp.go:283-301 | reading frame by frame gives back the messages in write order, whatever incomplete rest follows |
| `Framing.ShiftByTwo` | internal/dnsserver/msg.go:36-38 | the overlapping copy loses no byte |
| `Framing.PackWithPrefix` | internal/dnsserver/msg.go:23-42 | the packed bytes become their frame in place or in grown storage; refused exactly above 65535 bytes |
| `Framing.Conn.ReadFull` | internal/dnsserver/serverdnstcp.go:287-301 | succeeds exactly if enough bytes come, and consumes just those |
| `Framing.Conn.ReadMsg` | internal/dnsserver/serverdnstcp.go:271-312 | reads the next frame through a reused buffer of any contents, or fails exactly if there is none |
| `Framing.Conn.ReadMessages` | internal/dnsserver/serverdnstcp.go:149-159 | the read loop yields all complete messages of the input |
| `Framing.RunKeepsInv` | internal/dnsserver/tcpresponsewriter.go:41-77 | in every interleaving the stream is whole frames and the beginning of the lock holder's |
| `Framing.WriterGoesThrough` | internal/dnsserver/tcpresponsewriter.go:41-77 | a writer that gets the lock adds exactly its frame to the stream |
| `Framing.SendSplits` | internal/dnsserver/tcpresponsewriter.go:41-77 | it makes no difference in how many pieces a frame goes out |
| `Framing.AnyOrderIsPossible` | internal/dnsserver/tcpresponsewriter.go:41-77 | the writers can finish in any order, and the stream is then their frames in that order |
| `Framing.PipelinedWritersRoundTrip` | internal/dnsserver/tcpresponsewriter.go:41-77 | at every moment of every interleaving the peer reads exactly the messages that are out in full, each once, in write order |
| `Cloner.Cloner.Clone` | internal/dnsmsg/cloner.go:94-114 | a deep copy equal in every field, whatever the pools held, filled into the slots of the pooled message; it owns its objects, which are new or leave the pools; full tells whether all was pooled |
| `Cloner.Cloner.AppendRrs` | internal/dnsmsg/cloner.go:107-109 | the records overwrite the stale slots of a section in place, or go to a new array if there are too few |
| `Cloner.Cloner.CloneSection` | internal/dnsmsg/cloner.go:121-224 | the same for a section, each record at its place |
| `Cloner.Cloner.CloneRr` | internal/dnsmsg/cloner.go:140-165 | the same for a record, with a plain copy for the kinds without a pool |
| `Cloner.Cloner.CloneA` | internal/dnsmsg/rrconstructor.go:28-38 | the address bytes are overwritten in the pooled record's own array, or in a new one if it is too short |
| `Cloner.Cloner.CloneTxt` | internal/dnsmsg/rrconstructor.go:132-142 | the strings are overwritten in the pooled record's own array, or in a new one if it is too short |
| `Cloner.Cloner.OverwriteStrings` | internal/dnsmsg/dnsmsg.go:217-227 | the result says what the original says, whatever the array held |
| `Cloner.Cloner.CloneSoa` | internal/dnsmsg/cloner.go:180-184 | every field of the pooled record is overwritten |
| `Cloner.Cloner.CloneHttps` | internal/dnsmsg/httpscloner.go:74-104 | an equal copy even if an unknown value makes it give up midway |
| `Cloner.Cloner.CloneKvs` | internal/dnsmsg/httpscloner.go:91-101 | all values cloned exactly if none is of an unknown kind |
| `Cloner.Cloner.CloneKv` | internal/dnsmsg/httpscloner.go:108-154 | an equal value with its own objects, or nil exactly for an unknown kind |
| `Cloner.Cloner.CloneHint` | internal/dnsmsg/httpscloner.go:158-173 | a hint with the same addresses in arrays of its own |
| `Cloner.Cloner.AppendIps` | internal/dnsmsg/httpscloner.go:177-193 | each address in a separate pooled or new array |
| `Cloner.Cloner.CloneOptRec` | internal/dnsmsg/optcloner.go:49-97 | an equal copy even if an unknown option makes it give up midway |
| `Cloner.Cloner.CloneOpts` | internal/dnsmsg/optcloner.go:63-94 | all options cloned exactly if none is unknown |
| `Cloner.Cloner.CloneSubnet` | internal/dnsmsg/optcloner.go:78-87 | the subnet bytes are overwritten in the pooled option's own array, or in a new one |
| `Cloner.Cloner.Dispose` | internal/dnsmsg/cloner.go:232-258 | the parts of the message that the pools take become free, nothing else does, and nothing twice; addresses that go back to the pool must not overlap |
| `Cloner.Cloner.PutSection` | internal/dnsmsg/cloner.go:261-284 | returns exactly the pooled parts of the section |
| `Cloner.Cloner.PutHttps` | internal/dnsmsg/httpscloner.go:196-206 | returns the record and its values |
| `Cloner.Cloner.PutKv` | internal/dnsmsg/httpscloner.go:209-237 | returns the value, and the addresses of a hint |
| `Cloner.Cloner.PutIps` | internal/dnsmsg/httpscloner.go:240-246 | returns the first sixteen bytes of each address with that capacity |
| `Cloner.Cloner.PutOpt` | internal/dnsmsg/optcloner.go:100-119 | returns the record and its known options |
| `DnsCopy.CopyRr` | internal/dnsmsg/cloner.go:158-160 | dns.Copy: an equal record made of new objects only |
| `ClonerRuns.OverwriteTtl` | internal/ecscache/cache.go:168-172 | every record of the message gets the TTL and nothing else of it changes |
| `ClonerRuns.Execute` | internal/dnsmsg/cloner.go:94-284 | any run of Clone, of live and of foreign messages, Dispose and TTL overwrites, over pools with stale objects, keeps live messages and pools disjoint and has the effect it has on plain values |
| `ClonerRuns.MeaningCases` | internal/dnsmsg/cloner.go:94-284 | what each operation does to values: a clone has the value of its original, a disposed message is gone, a TTL overwrite changes TTLs |
| `DnsHeap.RrTellsAll` | internal/dnsmsg/cloner.go:94-284 | records with equal values have equal fields, of every kind |
| `DnsHeap.KvTellsAll` | internal/dnsmsg/httpscloner.go:177-246 | SVCB values with equal values have equal fields |
| `DnsHeap.OptTellsAll` | internal/dnsmsg/cloner.go:94-284 | EDNS options with equal values have equal fields |
| `ClonerRuns.ClonedFromKeepsValue` | internal/ecscache/cache.go:85-88 | a message that is only cloned from, as a cached one is, keeps its value through any run |
| `HintMemory.PutIps` | internal/dnsmsg/httpscloner.go:240-246 | the pool gets a window of sixteen bytes for each address with that capacity |
| `HintMemory.ApartIffSpaced` | internal/dnsmsg/httpscloner.go:240-246 | the windows handed in overlap nowhere exactly if addresses in one buffer are sixteen bytes apart |
| `HintMemory.SpacedRunsAreSafe` | internal/dnsmsg/httpscloner.go:177-246 | in every run of clones and disposals of spaced addresses no clone changes another |
| `HintMemory.StepsDo` | internal/dnsmsg/httpscloner.go:177-246 | a clone reads what was cloned, in a pooled window if there is one; disposing of it gives the window back |
| `HintMemory.PutIsSafeIff` | internal/dnsmsg/httpscloner.go:240-246 | disposing of addresses is safe for every later run if and only if they are spaced |
| `HintMemory.UnpackedIsSpacedIff` | internal/dnsmsg/httpscloner.go:240-246 | IPv6 hints cut from one buffer are always spaced; IPv4 ones exactly if there is one or the buffer is below twenty bytes |
| `HintMemory.FiveHints` | internal/dnsmsg/httpscloner.go:177-246 | counterexample: after disposing of five IPv4 hints, one clone changes another |
| `MsgOps.FindLowestTtl` | internal/dnsmsg/dnsmsg.go:169-191 | the early exits do not change the result |
| `MsgOps.LowestTtl` | internal/dnsmsg/dnsmsg.go:166-211 | it is the least TTL over all sections with the rules for SOA, OPT and SERVFAIL, or zero if there is none |
| `MsgOps.LowestTtlIs` | internal/dnsmsg/dnsmsg.go:166-191 | a SERVFAIL is kept for 30 seconds at most, and a message without any TTL not at all |
| `MsgOps.FloorIs` | internal/dnsmsg/dnsmsg.go:195-211 | the least TTL in terms of the records: an SOA record counts with its minimum too, an OPT record not at all |
| `MsgOps.FloorUnique` | internal/dnsmsg/dnsmsg.go:168-191 | that description has one solution only |
| `MsgOps.LowerIsFloor` | internal/dnsmsg/dnsmsg.go:195-211 | the running minimum is the declarative one |
| `MsgOps.RaiseInPlace` | internal/dnsmsg/dnsmsg.go:153-159 | answer TTLs below the minimum become it, and the others stay |
| `MsgOps.RaiseMsg` | internal/dnsmsg/dnsmsg.go:153-159 | each answer record has the greater of its TTL and the minimum, and nothing else changes |
| `MsgOps.RmHopToHopRrs` | internal/ecscache/msg.go:32-44 | filtering within the slice keeps the filtered records in order and clears the rest |
| `MsgOps.FilterTwice` | internal/ecscache/msg.go:32-73 | filtering again changes nothing |
| `MsgOps.FilteredOne` | internal/ecscache/msg.go:52-95 | an OPT record stays exactly if it has an extended error, with those only; a DNSSEC record goes unless asked for; any other stays |
| `MsgOps.FilteredSplits` | internal/ecscache/msg.go:32-44 | records are filtered one by one and keep their order |
| `MsgOps.OnlyEdeSplits` | internal/ecscache/msg.go:55-62 | options are kept one by one in their order |
| `MsgOps.FilteredIsClean` | internal/ecscache/msg.go:46-95 | only EDE options survive, DNSSEC records only if asked for; every other record survives |
| `MsgOps.HopToHopIsGone` | internal/ecscache/msg.go:18-26 | section by section: only EDE options survive, DNSSEC records only if asked for by DO bit or, in the answer, by type; all else survives |
| `MsgOps.IsCacheableNoError` | internal/ecscache/msg.go:218-251 | exactly the responses that reach the type asked for through aliases only, or alias-only ones with an SOA record |
| `MsgOps.NoErrorCases` | internal/ecscache/msg.go:218-251 | record by record: the type asked for decides, CNAME and SIG are passed over, anything else is not cacheable, and an empty rest needs an SOA record |
| `MsgOps.IsCacheable` | internal/ecscache/msg.go:188-203 | not truncated, one question, and a cacheable response code |
| `EcsOption.EcsData` | internal/dnsmsg/dnsmsg.go:115-149 | what is accepted is masked, of the stated family and has the stated scope |
| `EcsOption.EcsDataIff` | internal/dnsmsg/dnsmsg.go:115-149 | an option is good exactly if its family is 1 or 2, its address has a form for it, its length fits and its host bits are zero; the subnet read is the one on the wire |
| `EcsOption.ReadEcs` | internal/dnsmsg/dnsmsg.go:89-110 | the first subnet option of the last OPT record decides |
| `EcsOption.NetIpRoundTrip` | internal/ecscache/msg.go:163-184 | an address survives the way to bytes and back |
| `EcsOption.PutSubnetInPlace` | internal/ecscache/msg.go:139-156 | the loop overwrites the first subnet option only, and tells whether there was one |
| `EcsOption.SetEcsFailsIff` | internal/ecscache/msg.go:118-121 | setting fails exactly if the subnet is not of the family asked for |
| `EcsOption.EcsRoundTripIff` | internal/ecscache/msg.go:112-159 | reading back gives exactly the subnet and scope if and only if the subnet is masked and an option already there is of the same family |
| `EcsOption.OptionOnTheWire` | internal/ecscache/msg.go:112-184 | the option written: family 1 or 2, netmask, scope and the address with its high byte first, in an OPT record with the DO bit of a request |
| `EcsOption.SetEcsKeepsTheRest` | internal/ecscache/msg.go:112-159 | all other options, records and sections stay |
| `EcsOption.OtherFamilyFails` | internal/ecscache/msg.go:139-147 | counterexample: an option of the other family keeps its family |
| `LruCache.AddedContents` | internal/agdcache/default.go:73-83 | the new entry comes first, no key is repeated, and only the least recently used item of a full cache can fall out |
| `LruCache.AddedInserts` | internal/agdcache/default.go:60-83 | the new entry comes first and the others follow in their order, less the last one if there is no room |
| `LruCache.AfterGetContents` | internal/agdcache/default.go:88-105 | a lookup brings no new items and loses none of another key |
| `LruCache.AfterGetTouches` | internal/agdcache/default.go:88-105 | a live item comes first and the others follow in their order; an expired one goes; a miss changes nothing |
| `LruCache.RecentStays` | internal/agdcache/default.go:60-105 | what was just used survives any operations on fewer other keys than the cache has room for |
| `LruCache.DroppedIff` | internal/agdcache/default.go:60-105 | storing other keys drops it if and only if they are as many as the cache has room for |
| `LruCache.LookupSaves` | internal/agdcache/default.go:60-105 | in a cache of size two, set A, set B, get A, set C leaves A and C live and not B |
| `LruCache.GotIsLive` | internal/agdcache/default.go:88-105 | a lookup finds a value exactly if a live item has the key, and then that item's |
| `LruCache.Default.Set` | internal/agdcache/default.go:60-70 | the entry comes first and never expires; the others keep their order and only the last can go |
| `LruCache.Default.SetWithExpire` | internal/agdcache/default.go:73-83 | the entry comes first and expires after the duration; the others keep their order and only the last can go |
| `LruCache.Default.Get` | internal/agdcache/default.go:88-105 | a value exactly if an unexpired item has the key, which then comes first; an expired one is removed; the others keep their order |
| `LruCache.Default.Clear` | internal/agdcache/default.go:111-116 | nothing stays |
| `LruCache.Default.Len` | internal/agdcache/default.go:119-124 | never above the capacity |
| `EcsCache.KeysEqualIff` | internal/ecscache/cache.go:118-133 | two requests share a key exactly if they agree on name, type, class, DO bit and on the subnet or the declined flag |
| `EcsCache.ZeroPrefix` | internal/ecscache/ecscache.go:324 | a prefix of length zero of the family |
| `EcsCache.RoundDivIsNearest` | internal/ecscache/cache.go:181-187 | a nearest integer for all signs |
| `EcsCache.ServedTtlBounds` | internal/ecscache/cache.go:154-161 | at most the stored lowest TTL, and the remaining life to the nearest second |
| `EcsCache.ServedTtlNeverGrows` | internal/ecscache/cache.go:154-161 | an ageing message never gets a larger TTL |
| `EcsCache.LookInFinds` | internal/ecscache/cache.go:47-60 | a lookup in one of the caches hits exactly if a live item with the key is there and, for the subnet cache, the client did not decline; it brings nothing new and leaves the other cache alone |
| `EcsCache.LookFinds` | internal/ecscache/cache.go:42-63 | the plain cache comes first and the subnet one is closed to those who declined; a miss exactly if neither has a live item |
| `EcsCache.StoredContents` | internal/ecscache/cache.go:67-89 | at most one item is added, to the one cache, and both stay within their sizes |
| `EcsCache.Middleware.GetFrom` | internal/ecscache/cache.go:47-60 | finds and leaves exactly what the lookup of `LookInFinds` does |
| `EcsCache.Middleware.Get` | internal/ecscache/cache.go:42-63 | finds and leaves exactly what the lookup of `LookFinds` does |
| `EcsCache.Middleware.Set` | internal/ecscache/cache.go:67-89 | stores cacheable responses only, in the one cache, with the lifetime and minimum TTL, which the caller's response gets too |
| `EcsServe.FakeIff` | internal/ecscache/ecscache.go:401-407 | a response depends on the subnet exactly if its scope is not zero, unless the name is listed and spelt in lower case |
| `EcsServe.CapitalIsMissed` | internal/ecscache/ecscache.go:401-407 | counterexample: a listed name spelt with a capital letter |
| `EcsServe.LocationIsCoherentIff` | internal/ecscache/ecscache.go:205-225 | the location of `GeoQueryIff` has a subdivision of another country exactly if the option's location has a subdivision and no country, and the client's location a country and not that subdivision |
| `EcsServe.GeoQueryIff` | internal/ecscache/ecscache.go:183-225 | GeoIP is asked about the country and ASN of the option's location if it has a country and of the client's own otherwise, about the option's subdivision, and for the family of the option or of the client's address |
| `EcsServe.HitContent` | internal/ecscache/cache.go:146-175 | storing and serving change nothing but TTLs, header and question, compared without the spelling of owner names |
| `EcsServe.HitRecords` | internal/ecscache/cache.go:146-175 | a hit has the filtered records of the response in their order, with one TTL for all |
| `EcsServe.UpstreamSeesSubnet` | internal/ecscache/ecscache.go:366-377 | whatever option the client sent, the upstream reads exactly the subnet looked up; setting it fails exactly for a subnet of the wrong family |
| `EcsServe.DeclinedDisclosesNothing` | internal/ecscache/ecscache.go:316-324 | for a client that declined, the upstream reads a subnet of length zero (section 7.1.2 of RFC 7871) |
| `EcsServe.ClientSeesItsSubnet` | internal/ecscache/ecscache.go:158-167 | a client that sent a subnet reads it back with full scope, and writing it never fails (section 7.2.2 of RFC 7871) |
| `EcsServe.ClientEcsKeeps` | internal/ecscache/ecscache.go:158-167 | writing the client's option changes nothing else, and nothing at all if it sent none |
| `EcsServe.RaisedWithinLifetime` | internal/ecscache/cache.go:78-82 | raising TTLs never promises more than the lifetime of the entry |
| `EcsServe.HitTtl` | internal/ecscache/cache.go:146-175 | all records of a hit have one TTL, which outlives the entry by half a second at most; without the override it is the remaining life to the nearest second |
| `EcsServe.HitDoBit` | internal/ecscache/cache.go:168-172 | the DO bit of a hit is a bit of the remaining TTL |
| `EcsServe.HitShowsDo` | internal/ecscache/cache.go:168-172 | counterexample: a cached response with an extended error and a TTL of 40000 seconds comes back with the DO bit set |
| `EcsAgreement.HitAgrees` | internal/ecscache/ecscache.go:347-362 | a hit tells the client what an honest upstream would have told it, for its own subnet, when the item was stored, if the two requests are alike |
| `EcsCacheRuns.ServeCached` | internal/ecscache/ecscache.go:150-178 | the outcome and the caches are those of the lookup in one cache |
| `EcsCacheRuns.ServeFromCaches` | internal/ecscache/cache.go:42-63 | with nothing in between, both lookups are the two steps in order, the second for misses only |
| `EcsCacheRuns.AskedOutcome` | internal/ecscache/ecscache.go:297-362 | a lookup fails exactly if no subnet is found, misses exactly if nothing live is there in the cache asked, and otherwise gets what an earlier response left in it |
| `EcsCacheRuns.ServeUpstream` | internal/ecscache/ecscache.go:229-284 | stores what is cacheable and replies, as `AnsweredReply` and `StoredContents` say; a malformed option of the upstream stores nothing |
| `EcsCacheRuns.AnsweredOutcome` | internal/ecscache/ecscache.go:229-284 | fails exactly if no subnet of the client's family was found or the upstream's option is malformed |
| `EcsCacheRuns.AnsweredReply` | internal/ecscache/ecscache.go:229-284 | on a miss the client gets the filtered answer of the upstream with its header and question, the AD bit only if asked for, each answer TTL the upstream's own or the minimum, and its own option |
| `EcsCacheRuns.BuiltIsValid` | internal/ecscache/ecscache.go:311-345 | it fails exactly if the lookup for the place and family of `GeoQueryIff` fails; otherwise it has the client's name, type, class and DO bit, the declined flag exactly for a subnet of length zero, and the subnet found, or one of length zero |
| `EcsCacheRuns.ServedRepliesTo` | internal/ecscache/cache.go:163-166 | a reply from the cache has the client's ID, question and flags, the other flags of the stored response, and the AD bit only if asked for |
| `EcsCacheRuns.ServedRecords` | internal/ecscache/cache.go:146-175 | a reply from the cache has the answer and authority records of the filtered response, with one TTL that fits what is left of its life |
| `EcsCacheRuns.Run` | internal/ecscache/ecscache.go:297-392 | any run of the code, with GeoIP data that change, has exactly the outcomes and caches of the function that the theorems are about |
| `EcsCacheRuns.RunIsolates` | internal/ecscache/cache.go:42-133 | each reply from a cache was stored in it for the same name, type, class, DO bit and subnet or declined flag, has the records of that response, is not past its lifetime, and never comes from the subnet cache for a client that declined |
| `EcsAgreement.RunAgrees` | internal/ecscache/ecscache.go:297-407 | in every run, no client is told anything an honest upstream would not have told it for its own subnet, if the earlier responses that may share an item with the lookup were to masked subnets and are alike to it |
| `EcsAgreement.MissAgrees` | internal/ecscache/ecscache.go:229-284 | on a miss the client is told what the upstream tells it at that moment, whatever the upstream is like |
| `EcsAgreement.PairHitIff` | internal/ecscache/cache.go:42-133 | a response serves a later lookup if and only if it is not truncated, has one question, a cacheable code and a TTL, was stored in the cache asked, for the same name, type, class, DO bit and subnet or declined flag, and is within its lifetime |
| `EcsAgreement.ProperSubnetsAreAlike` | internal/ecscache/ecscache.go:316-333 | requests are alike if their CD bits are equal and GeoIP finds subnets of length zero for no client that did not decline |
| `EcsAgreement.AgreementIff` | internal/ecscache/cache.go:118-133 | a response of scope zero is what every honest upstream would have said to another request if and only if both agree on the CD bit and on having a subnet of length zero |
| `EcsAgreement.LifeIsBounded` | internal/ecscache/cache.go:78-82 | no response is kept for longer than the largest TTL or the minimum TTL |
| `EcsAgreement.MixedRunDisagrees` | internal/ecscache/cache.go:118-133 | any response and lookup, in either cache, that may share an item and are not alike make a run in which the client is told what an honest upstream would not have told it |
| `EcsAgreement.AlikeIff` | internal/ecscache/ecscache.go:297-407 | the run of a response and a lookup agrees with every honest upstream if and only if the two are alike: either they cannot share an item, by key, time, declining or a listed name, or they agree on the CD bit and on having a subnet of length zero |
| `EcsAgreement.UnknownPlaceDisagrees` | internal/geoip/file.go:251 | counterexample: a place GeoIP does not know, then one it knows |
| `EcsAgreement.CheckingDisabledDisagrees` | internal/ecscache/cache.go:118-133 | counterexample: a request with the CD bit, then one without |
| `EcsAgreement.TailorIsHonest` | internal/ecscache/ecscache.go:394-407 | an upstream with an answer for each proper subnet, under the name as the client spelt it, and one of scope zero for subnets of length zero, is honest |
| `EcsAgreement.TailorTailors` | internal/ecscache/ecscache.go:394-407 | it gives different answers to subnets with different addresses |

## Left out

- Records: AAAA, CNAME, MX, PTR and SRV have pools of their own in the source and are cloned like TXT and A; the model
  has A, TXT, SOA, HTTPS, OPT and one kind for all others. SVCB values other than ALPN, hints and no-default-alpn, and
  the COOKIE option, are unknown kinds here.
- Slices: the backing arrays of sections, TXT strings and addresses are modelled; those of questions, ALPN names, SVCB
  values, the list of a hint's addresses and EDNS options are values. Nil and empty slices are the same.
- Cloner.Cloner.Dispose: addresses that go back to the pool must not overlap, which `HintMemory.PutIsSafeIff` shows to
  be exactly what safety needs; in the heap model an array stands for a stretch of memory within which addresses
  overlap, and an address too short for the pool must not reach into two of them.
- ECS cache: messages there are values; that clones share nothing with cached items is shown in `ClonerRuns` for clones
  and TTL overwrites, not for the in-place edits of `filterRR` and `setECS`. The pool of cache requests is not modelled.
- EcsServe.FakeIff: lowercasing is that of ASCII, as in DNS names.
- Levenshtein.Calculator.Distance: strings are ASCII, as the source demands of its callers.
- Levenshtein.TriangleWithoutTransposition: one direction; with transpositions the inequality may or may not hold.
- A lookup in one of the two caches has one time, for the expiry and for the TTLs served.
- Writing: an error in the middle of a TCP write, deadlines and the keep-alive option.
- Connection limiter: which waiter wakes up, and that one does; the widths of its counters.
- Errors of closing listeners and connections, their wording, logging and metrics.
- Unpacking and packing of messages, `serveDNS` and `respondWithError` beyond their effect on permits.
- QUIC, DNS-over-HTTPS and DNSCrypt servers; access settings, filters and rate limiting; configuration, RPC and debug services.
