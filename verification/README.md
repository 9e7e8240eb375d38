# Redfish SDK: a verified model of its stateful algorithms

The SDK talks to baseboard management controllers. Most of it parses and forwards; this project models the
parts that decide something over many steps, and proves what they guarantee over every input, run or trace.

- **GPU inventory.** `GpuClusters` defines what a sequence of added records is merged into, and connected
  components without reference to the algorithm. `GpuTheorems` relates the two. `GpuInventory` is the object
  that changes its list, identity sets and GPU objects in place; its invariant says that it shows that clustering.
- **Session and requests.** `Session` is the authentication state of one client and its refresh;
  `SessionProtocol` interleaves any number of threads, refreshes under a lock, and explicit token changes and
  resets, which take no lock and write mode, key, memory and headers one after the other. `Transport` is the retry loop and the single replay after a refresh.
- **ETags.** `ETags` has the client's cache, and a machine of client, service and foreign writers with delayed and
  reordered answers, under the If-Match rule of section 13.1.1 of RFC 9110.
- **Message registries.** `Registries` follows references with a trail, and without one; `RegistryCache` is the
  manager with its least recently used cache; `MessageText` is the one-pass substitution of arguments.
- **Collections.** `Collections` is the paging loop with its two error modes, proved against the list of
  everything that happens when nothing stops it; `CollectionTheorems` states what follows.
- **Asynchronous operations.** `TaskWait` is the polling loop as a fold over an arbitrary trace of polls;
  `TaskTheorems` says when it returns and how its budgets hold.
- **Smaller cores.** `ZteProgress` (stale progress readings), `ArtifactSearch` (search of a JSON tree) and
  `OemMerge` (in-place merge of vendor blocks, including blocks that are the same object as the result).
- `Wrappers` and `Sequences` hold Option, Result, order-preserving de-duplication, first-wins merging and sorting.

The network, the clock and the service are parameters: `wire(k)` is what the k-th dispatch meets, `fetch` is
what a source delivers, a trace lists the polls, `readings(i)` is the i-th progress answer. `normalise` stands for
strip and case folding of a serial number, `fold` for case folding of a registry prefix, `Unicode` for lower() and
isalnum(), `Digits` for the decimal digits of a regular expression, and `resolve` for link resolution, which yields
a path or an off-origin error.

## What the proofs found

Each of these is a promise that the code keeps only under a condition; the lemma states the condition exactly.

- The documentation of the session refresh says that it refreshes once. Over all interleavings with fresh tokens,
  no token is posted for twice if and only if no token is set explicitly and the client either stays in Basic mode,
  where nothing is refreshed, or has a token from the start and is not reset
  (`SessionProtocol.SingleFlightExactly`). Otherwise there is a run that posts twice: a change that has written the
  key and clears the memory only after another thread has failed to refresh that key
  (`SessionProtocol.TornChangeBreaks`), or a refresh that observed None, which skips the comparison at line 1190 of
  `http_client.py` and overwrites the remembered failure (`SessionProtocol.BlindRefreshBreaks`,
  `SessionProtocol.ResetBreaks`). For runs with changes, `SessionProtocol.SingleFlight` says what is enough.
- A PATCH sent without an ETag of its own cannot overwrite a write made in between if and only if its path has a
  cached ETag (`ETags.ProtectedExactly`). A PATCH with its own condition, from the body or the caller, is protected
  if and only if that condition is an ETag which the resource has had, or one that no version can have
  (`ETags.OverrideProtectedExactly`). Without any, from every state, a version that nobody was sent can be
  overwritten (`ETags.WildcardOverwritesUnseen`).
- The reference-cycle error of the registries means that following would never end, or that two different
  registries on the chain have the same prefix and version (`Registries.CycleErrorMeans`). On a chain that ends it
  is raised exactly in the second case (`Registries.FalseCycleExactly`), which does occur
  (`Registries.SharedIdentityFalseCycle`).
- A ZTE service stuck in a terminal reading is believed from the second poll on if and only if the trigger captured
  no path, because the request before it failed or the reading had no usable one
  (`ZteProgress.StaleReadingBelieved`, `ZteProgress.StuckServiceCompletes`). A failed state is reported as a success
  if and only if the percentage says 100 and, after a trigger, the reading counts as the new run's
  (`ZteProgress.FailureReportedAsSuccess`).
- The timeout of a wait bounds the sleeps it requests (`TaskTheorems.BudgetsKept`), not the time its requests take.
  The number of polls is bounded if and only if the pauses have a positive lower bound or no time is left after the
  initial delay (`TaskTheorems.PollsBoundedExactly`).
- The documentation of `Oem` lists six vendor keys after Public; the code also merges `Ami` and `Enginetech`, and
  so does the model.

## Model

| member | source | states |
|---|---|---|
| GpuTheorems.GroupsAreComponents | redfish_sdk/managers/gpu_discovery.py:37-60 | two records end in the same GPU if and only if a chain of records links them, each sharing an identity with the next |
| GpuTheorems.RunPartitions | redfish_sdk/managers/gpu_discovery.py:47-60 | after any adds every record is in exactly one GPU, and the identity sets of different GPUs are disjoint |
| GpuTheorems.UnidentifiedStaysAlone | redfish_sdk/managers/gpu_discovery.py:47-50 | a record without identities is never merged with another one |
| GpuTheorems.IsolatedStaysAlone | redfish_sdk/managers/gpu_discovery.py:47-50 | a record that shares no identity with another one stays alone |
| GpuTheorems.ResultOrder | redfish_sdk/managers/gpu_discovery.py:47-60 | the result is ordered by each group's earliest record, which is also merged first |
| GpuTheorems.GroupingIgnoresOrder | redfish_sdk/managers/gpu_discovery.py:37-60 | adding the records in any other order gives the same groups with the same identities |
| GpuTheorems.FieldsConserved | redfish_sdk/managers/gpu_discovery.py:62-68 | a merged field is missing if and only if all records of the group miss it, and otherwise the first record in merge order that has it decides |
| GpuTheorems.UrisListedOnce | redfish_sdk/managers/gpu_discovery.py:45-74 | every added resource URI is listed exactly once over all GPUs, and nothing else is listed |
| GpuTheorems.AddMergesInListOrder | redfish_sdk/managers/gpu_discovery.py:47-60 | the repeated in-place folding equals one pass: the first match takes the new record, then all later matches in list order; the others keep their places |
| GpuInventory.Inventory.Add | redfish_sdk/managers/gpu_discovery.py:37-60 | the list keeps showing exactly the clustering of all records added so far, related identities included, and only the added GPU joins the listed objects |
| GpuInventory.Inventory.FoldDuplicates | redfish_sdk/managers/gpu_discovery.py:55-59 | folding the matches collected beforehand, while the list shrinks, gives what searching again for the next match would give |
| GpuInventory.Inventory.RemoveEntry | redfish_sdk/managers/gpu_discovery.py:59 | removal by equal contents takes the intended entry |
| GpuInventory.RemovalFinds | redfish_sdk/managers/gpu_discovery.py:52-59 | no earlier entry has the contents of the duplicate, not even the primary that has just absorbed it |
| GpuInventory.Inventory.FindMatches | redfish_sdk/managers/gpu_discovery.py:47 | the matches are all entries sharing an identity, in order, and the first one is at the reported position |
| GpuInventory.Gpu.Absorb | redfish_sdk/managers/gpu_discovery.py:62-74 | own values win, missing ones come from the other GPU, and the source lists are joined without repetition |
| GpuInventory.Inventory.Prepare | redfish_sdk/managers/gpu_discovery.py:38-46 | a resource's identities are its links, its own URI and its usable serial number, and its fields are untouched |
| GpuInventory.IdentitiesExactly | redfish_sdk/managers/gpu_discovery.py:38-42 | the identities are the links, a non-empty own URI and, marked, the normal form of a non-empty serial number that is neither n/a nor not available; nothing else |
| GpuInventory.SerialsLinkExactly | redfish_sdk/managers/gpu_discovery.py:40-47 | serial numbers alone link two resources if and only if their normal forms agree and are no placeholder |
| GpuInventory.PlaceholderNeverLinks | redfish_sdk/managers/gpu_discovery.py:40-60 | whatever else is added, a resource with a placeholder serial number and no links stays alone unless another record names its URI |
| GpuInventory.PublicIdsExactly | redfish_sdk/managers/gpu_discovery.py:76-78 | the public identities are those not beginning with the serial mark |
| Sequences.Sorted | redfish_sdk/managers/gpu_discovery.py:76-78 | the public identities are listed strictly sorted, all of them and nothing else |
| Sequences.LexLessExactly | redfish_sdk/managers/gpu_discovery.py:78 | the order of the listing: a proper beginning first, or the smaller character where two identities first differ |
| Sequences.DedupConcat | redfish_sdk/managers/gpu_discovery.py:69-74 | joining two lists that are already free of repetitions loses no order information |
| Sequences.DedupLast | redfish_sdk/managers/gpu_discovery.py:69-74 | of equal entries the first is kept |
| SessionProtocol.SingleFlight | redfish_sdk/http_client.py:1187-1236 | over every interleaving with fresh tokens, explicit changes included, in which no refresh observed None and no change clears a remembered failure while its token is current or being checked: a token is posted for at most once, and no request is replayed with the token observed before its rejection |
| SessionProtocol.SingleFlightFromToken | redfish_sdk/http_client.py:657-678 | starting from a token and without explicit changes those conditions hold by themselves |
| SessionProtocol.SingleFlightExactly | redfish_sdk/http_client.py:1142-1236 | for every start and whether tokens are set and resets occur: no fresh interleaving posts twice for a token if and only if none is set and the client is in Basic mode, or has a token and is not reset |
| SessionProtocol.BasicNeverPosts | redfish_sdk/http_client.py:655-677 | in Basic mode and without a token being set, no refresh is ever posted |
| SessionProtocol.FailureRemembered | redfish_sdk/http_client.py:1234-1236 | a refresh of the current token that fails while no change is under way raises and leaves its failure behind |
| SessionProtocol.FailureStays | redfish_sdk/http_client.py:1190-1200 | until an explicit change the failure stays and nobody posts |
| SessionProtocol.FailureShared | redfish_sdk/http_client.py:1190-1200 | however much later, without a change in between, nobody has posted, a caller that observed the token passes the key check and gets the stored failure, and one that observed another token goes on |
| SessionProtocol.FailureSharedFromStart | redfish_sdk/http_client.py:1187-1236 | the same from the start of a client with a token: after a refresh of the current token has failed in one thread, every thread that checks for it raises that failure and no POST is sent, until an explicit change |
| SessionProtocol.BlindRefreshBreaks | redfish_sdk/http_client.py:1190-1200 | in Session mode without a token, two callers can post twice for any given token |
| SessionProtocol.TornChangeBreaks | redfish_sdk/http_client.py:1169-1172 | from every state at rest, a set token whose memory is cleared late is posted for twice |
| SessionProtocol.SetBreaks | redfish_sdk/http_client.py:1142-1174 | from every start one explicit token is enough for that |
| SessionProtocol.ResetBreaks | redfish_sdk/http_client.py:1177-1185 | in Session mode, whatever the first token, two callers and one reset are enough |
| SessionProtocol.WritesMakeChange | redfish_sdk/http_client.py:1169-1184 | the five writes of a change, uninterrupted, are setting a token or resetting |
| SessionProtocol.ChecksDecide | redfish_sdk/http_client.py:1190-1200 | the two checks under the lock, uninterrupted, take the decision of the refresh |
| SessionProtocol.RefreshGoesOn | redfish_sdk/http_client.py:655-679 | after a refresh that did not raise, a call not yet sent is sent, and a rejected one is replayed |
| Session.HttpSession.RefreshSession | redfish_sdk/http_client.py:1187-1236 | the client afterwards, whether a POST was sent and what was raised, for every observation, memory and answer |
| Session.RefreshSucceedsExactly | redfish_sdk/http_client.py:1211-1226 | a refresh succeeds if and only if the answer is a 2xx with a non-empty token, which it takes; and how it fails otherwise |
| Session.HttpSession.SetAuthToken | redfish_sdk/http_client.py:1142-1174 | an empty token is refused without effect; otherwise mode, token, memory and both headers change together |
| Session.HttpSession.ResetBasicAuth | redfish_sdk/http_client.py:1177-1185 | the client is back in Basic mode with no token and no remembered failure |
| Session.HeadersStayInStep | redfish_sdk/http_client.py:1169-1184 | no operation leaves the headers with the credential of another mode |
| Session.PostsAgainExactlyWhen | redfish_sdk/http_client.py:1190-1200 | the same observation is posted again right after a refresh if and only if the refresh worked and either nothing was observed or the same token came back |
| Transport.Send | redfish_sdk/http_client.py:540-630 | a Post, Patch, Put or Delete with the default policy is dispatched once; only 500, 502, 503, 504 and, if enabled, read timeouts are tried again, and they are while attempts are left; the sleeps total backoff n(n-1)/2 for n dispatches |
| Transport.SentAgainExactly | redfish_sdk/http_client.py:515-538 | which dispatch is followed by another: a read or an idempotent request, with attempts left, after one of those outcomes |
| Transport.SettlesOnce | redfish_sdk/http_client.py:580-630 | the retry rule determines the number of dispatches |
| Transport.Request | redfish_sdk/http_client.py:632-683 | when nothing is sent, when a read is replayed and what is answered; a default-policy write is dispatched at most once in all, a read at most 2(1+n) times, and an authenticated read that meets 401 in Session mode is replayed unless the refresh fails |
| Transport.TranslateExactly | redfish_sdk/http_client.py:680-683 | which outcome of the last dispatch becomes which error |
| ETags.CachedPatchReplacesWhatWasSeen | redfish_sdk/http_client.py:936-951 | in every run with foreign writers, a successful PATCH with a cached ETag replaced exactly the version that was current when the service sent that ETag |
| ETags.InvStep | redfish_sdk/http_client.py:462-470 | every step keeps each stamp attached to the version it was sent with, failed responses included |
| ETags.WildcardOverwritesUnseen | redfish_sdk/http_client.py:451-460 | from every state in which the path is not cached, a version stored after the PATCH was sent, which no answer has carried, can be replaced by it |
| ETags.ProtectedExactly | redfish_sdk/http_client.py:451-460 | in every reachable state a PATCH without an ETag of its own can only be applied to the version that is current when it is sent if and only if the path has a cached ETag |
| ETags.OverrideProtectedExactly | redfish_sdk/http_client.py:451-460 | the same for a PATCH with its own condition: if and only if it is an ETag the resource has had, or one that no version can have |
| ETags.CachedIsProtected | redfish_sdk/http_client.py:936-951 | a PATCH with a cached ETag that is applied meets no write in between, and its ETag came with the current version |
| ETags.ClientIsEtagCache | redfish_sdk/http_client.py:451-470 | receiving a response and choosing a condition in the machine is what the cache object does |
| ETags.ConditionFor | redfish_sdk/http_client.py:451-460 | the condition is the wildcard if and only if the body brings the wildcard, or nothing and the cache has no ETag or the wildcard |
| ETags.HeaderExactly | redfish_sdk/http_client.py:451-460 | the body's ETag is sent if it has one, else the cached one, else the wildcard |
| ETags.StoredIsSent | redfish_sdk/http_client.py:451-470 | the ETag received last for a path is what is sent for it, and for no other path |
| ETags.EtagCache.Header | redfish_sdk/http_client.py:451-460 | the cache object sends the body's ETag, else the cached one, else the wildcard |
| ETags.EtagCache.Store | redfish_sdk/http_client.py:462-470 | a non-empty ETag replaces the cached one of its path only |
| ETags.EtagCache.PrimedHeader | redfish_sdk/client.py:2907-2914 | a generic PATCH reads first if and only if nothing is cached, and uses the ETag of that answer whatever its status |
| Registries.CycleExactly | redfish_sdk/managers/registries.py:83-137 | the cycle error is raised if and only if the chain returns to an identity it has visited |
| Registries.TrailIsInvisible | redfish_sdk/managers/registries.py:83-137 | without that error, following references without any trail ends, with the same result |
| Registries.HopExactly | redfish_sdk/managers/registries.py:101-137 | a hop leads to the registry found for the document's reference or else the definition's; the chain ends well if and only if a registry has its own definition; and which error ends it otherwise |
| Registries.ResolvedExactly | redfish_sdk/managers/registries.py:83-137 | what is resolved is the own definition of a registry on the chain |
| Registries.CycleNames | redfish_sdk/managers/registries.py:95-99 | the cycle error names the identities of the chain in order, up to the one that comes back |
| Registries.LoadExactly | redfish_sdk/managers/registries.py:245-275 | the document comes from the first source that can be fetched, and which error is raised if there is none |
| Registries.CycleErrorMeans | redfish_sdk/managers/registries.py:83-137 | the error is raised if and only if following would never end or two different registries on the chain have the same identity |
| Registries.FalseCycleExactly | redfish_sdk/managers/registries.py:93-99 | on a chain that ends the error is raised if and only if two different registries on it have the same identity |
| Registries.CycleMeansEndless | redfish_sdk/managers/registries.py:83-137 | with distinct identities the error is raised if and only if following would never end |
| Registries.SharedIdentityFalseCycle | redfish_sdk/managers/registries.py:93-99 | with a shared identity the error can be raised although following would end |
| Registries.TrailGrows | redfish_sdk/managers/registries.py:102 | each hop uses up an advertised identity, so resolution ends on every reference graph |
| Registries.FindReferenced | redfish_sdk/managers/registries.py:214-243 | the loops find the registry that the specification of the choice names |
| Registries.FindMeaning | redfish_sdk/managers/registries.py:214-243 | a reference is refused if and only if nothing fits; otherwise it gets the earliest of the best fits |
| Registries.NameGetsNewest | redfish_sdk/managers/registries.py:224-243 | a name gets a registry with that prefix up to case, major and minor, and errata if given; no other such registry has a larger errata, and none listed earlier the same |
| Registries.IdGetsFirst | redfish_sdk/managers/registries.py:216-222 | an Id gets the first registry that has it, and is refused if and only if none does |
| RegistryCache.RegistriesManager.LoadDocument | redfish_sdk/managers/registries.py:245-275 | loading through the cache gives what loading without it gives, the fallback source included, and uses exactly the source that delivered |
| RegistryCache.RegistriesManager.ResolveFrom | redfish_sdk/managers/registries.py:83-137 | each call, with its own language and the registries advertised then, gives what resolving without any cache gives, and uses one source for each registry visited |
| RegistryCache.RegistriesManager.Insert | redfish_sdk/managers/registries.py:266-269 | a new document becomes the most recent one, and only the oldest leave |
| RegistryCache.RegistriesManager.MoveToEnd | redfish_sdk/managers/registries.py:257-260 | a hit becomes the most recent entry |
| RegistryCache.RegistriesManager.ClearCache | redfish_sdk/managers/registries.py:79-81 | nothing is cached afterwards |
| RegistryCache.KeysAreInUse | redfish_sdk/managers/registries.py:256-270 | after any history the cached sources are distinct, at most 32 and all used since the last clear |
| RegistryCache.KeysInOrder | redfish_sdk/managers/registries.py:256-270 | they are listed in order of last use |
| RegistryCache.OnlyOldestMissing | redfish_sdk/managers/registries.py:268-269 | a source used since the last clear is missing only if all 32 places are taken by sources used later |
| RegistryCache.TouchWindow | redfish_sdk/managers/registries.py:266-269 | evicting after every use is the same as keeping everything and looking at the last 32 |
| MessageText.FailsExactly | redfish_sdk/managers/registries.py:160-171 | substitution fails if and only if some %n has n outside 1..len(args), and reports the first such n |
| MessageText.ReplacedOnce | redfish_sdk/managers/registries.py:33-171 | each placeholder with its longest run of digits is replaced once, and the argument is not scanned again |
| MessageText.NumberedArgumentsExactly | redfish_sdk/managers/registries.py:163-171 | the arguments %1, %2, ... return the text unchanged if and only if every placeholder is in range and written in ASCII digits without a leading zero |
| MessageText.RenderSucceedsExactly | redfish_sdk/managers/registries.py:148-171 | when the whole rendering step succeeds, in terms of the text, the declared count and the arguments |
| MessageText.RenderExactly | redfish_sdk/managers/registries.py:148-171 | which text is rendered, and which error comes first |
| MessageText.Decimally | redfish_sdk/managers/registries.py:163-165 | the digits of a placeholder are read as a decimal number |
| MessageText.RunExactly | redfish_sdk/managers/registries.py:33 | a placeholder takes the longest run of digits |
| Collections.GetCollection | redfish_sdk/client.py:783-899 | the paging loop returns or raises what the error mode makes of the events, and the page and member fetches it makes are exactly those of the events up to the one that raises |
| Collections.ExpandPage | redfish_sdk/client.py:858-888 | one page adds its members, failures and fetches in order, or raises at the first failure in strict mode |
| CollectionTheorems.ModesAgree | redfish_sdk/client.py:818-832 | if best-effort returns, strict returns the same members when there are no failures and otherwise raises the first recorded error; if best-effort raises, so does strict |
| CollectionTheorems.RaisesExactly | redfish_sdk/client.py:816-855 | best-effort raises if and only if the start link is refused, the first page cannot be fetched, or the page that ends the chain is malformed, each with its own error; the first two raise the same in strict mode |
| CollectionTheorems.FailuresExactly | redfish_sdk/client.py:818-897 | best-effort records exactly the distinct member paths whose fetch fails, the refused member links, and the refused next link, loop or failed page at the end, each with its resource and error |
| CollectionTheorems.MembersSplitExactly | redfish_sdk/client.py:858-888 | the distinct resolvable member paths of the pages read, in first-seen order, are the paths fetched, and each is a member or a member failure as its fetch went |
| CollectionTheorems.PageFailureIsLast | redfish_sdk/client.py:834-897 | at most one page failure is recorded, and it is last |
| CollectionTheorems.PagesRead | redfish_sdk/client.py:834-897 | the pages read along the chain are distinct, also when the links form a loop |
| CollectionTheorems.PagesAskedExactly | redfish_sdk/client.py:834-855 | the pages fetched are those read along the chain and then at most one more, which could not be fetched or was malformed |
| CollectionTheorems.FetchedOnce | redfish_sdk/client.py:810-897 | in both modes no page and no member path is fetched twice, and the fetches made are the first ones of the chain, in order |
| TaskWait.WaitForOperation | redfish_sdk/managers/task.py:161-337 | the polling loop equals a fold of one poll's step over the trace |
| TaskTheorems.ReturnsExactlyWhenProved | redfish_sdk/managers/task.py:198-332 | the wait returns if and only if it reaches a poll that proves completion, and says that the monitor is missing exactly if that poll was a verified 404 or 410 |
| TaskTheorems.StepCompletesExactly | redfish_sdk/managers/task.py:249-384 | what proves completion: a completed Task resource, a vanished monitor with a completed Task, or another 2xx that is not 202 |
| TaskTheorems.KnowsHistory | redfish_sdk/managers/task.py:182-299 | while the wait goes on it knows the latest task reported and the first Task URI named, and has slept exactly what the polls asked for |
| TaskTheorems.PauseExactly | redfish_sdk/managers/task.py:274-299 | a pause is Retry-After, else the announced offline time, else the poll interval, or the recovery interval after a lost connection; it is slept if it fits into the time left, and otherwise the wait times out |
| TaskTheorems.GoesOnExactly | redfish_sdk/managers/task.py:198-299 | the wait goes on only after such a pause, or after a reauthentication, which takes none |
| TaskTheorems.FailsAs | redfish_sdk/managers/task.py:201-323 | which error each answer ends the wait with |
| TaskTheorems.VanishedFailsAs | redfish_sdk/managers/task.py:339-384 | how a vanished monitor ends the wait, by what the Task resource answers |
| TaskTheorems.StartsExactly | redfish_sdk/managers/task.py:175-192 | what can be waited for, the deadline, and the Task URI known at the start |
| TaskTheorems.InitialDelayExactly | redfish_sdk/managers/task.py:194-196 | the initial Retry-After is slept before the first poll, or times out without one |
| TaskTheorems.TaskResourceExactly | redfish_sdk/managers/task.py:404-411 | which monitors are Task resources |
| TaskTheorems.CompletedCarries | redfish_sdk/managers/task.py:256-332 | a completed wait hands out the task that proved completion, or the latest one reported if the monitor itself answered, with the first Task URI named |
| TaskTheorems.BudgetsKept | redfish_sdk/managers/task.py:187-299 | requested sleeps never total more than the timeout, and reauthentications never exceed their limit |
| TaskTheorems.ReconnectExactly | redfish_sdk/managers/task.py:199-249 | the reconnection error is raised if and only if a connection failure follows the allowed number of failures with no response but 401 or 403 in between |
| TaskTheorems.ReauthenticationExactly | redfish_sdk/managers/task.py:223-247 | reauthentication is given up if and only if a 401 or 403 in Basic mode follows the allowed number of others, whatever came between |
| TaskTheorems.MonitorGets | redfish_sdk/managers/task.py:187-299 | with every pause that is asked for at least d > 0 there are at most 1 + max_auth_attempts + timeout/d monitor GETs |
| TaskTheorems.PollsBoundedExactly | redfish_sdk/managers/task.py:194-299 | the number of GETs is bounded over all traces if and only if the pauses have a positive lower bound or the initial delay leaves no time |
| TaskTheorems.BusyServicePolledForEver | redfish_sdk/managers/task.py:286-299 | a service that answers 202 with Retry-After 0 is asked any number of times |
| TaskTheorems.OfflineDelayExactly | redfish_sdk/managers/task.py:413-427 | the first number of the first message that announces one decides, a negative one counting as zero, and there is no delay if and only if no message announces one |
| ZteProgress.WaitUntilReady | redfish_sdk/managers/log_collect_strategies/zte.py:215-280 | which reading ends the wait and how, that none before it did, that the history is the readings in order, and that a timeout comes after exactly ceil(timeout/step) polls |
| ZteProgress.EndsOnce | redfish_sdk/managers/log_collect_strategies/zte.py:224-280 | the readings alone decide the number of polls and the outcome |
| ZteProgress.CompletesExactly | redfish_sdk/managers/log_collect_strategies/zte.py:224-257 | the wait succeeds if and only if within the time some reading is accepted before anything else is decided |
| ZteProgress.ReadingsExactly | redfish_sdk/managers/log_collect_strategies/zte.py:234-236 | which readings are done, failed, or show the new run; a failed one does not |
| ZteProgress.EvidenceExactly | redfish_sdk/managers/log_collect_strategies/zte.py:237-248 | when a terminal reading after a trigger is believed |
| ZteProgress.LatestTarExactly | redfish_sdk/managers/log_collect_strategies/zte.py:228 | the path compared and handed out is the last non-empty one |
| ZteProgress.TimeoutPolls | redfish_sdk/managers/log_collect_strategies/zte.py:216-224 | the interval between polls is at least one second, and a timeout comes when the next poll would be too late |
| ZteProgress.StaleReadingBelieved | redfish_sdk/managers/log_collect_strategies/zte.py:112-257 | a service stuck in an old terminal reading is believed if and only if the trigger captured no path, also because its request failed, and this is not the first poll |
| ZteProgress.StuckServiceCompletes | redfish_sdk/managers/log_collect_strategies/zte.py:112-257 | so a wait with time for two polls ends with the old result, at the second poll, if and only if no path was captured |
| ZteProgress.FailedAtHundredCompletes | redfish_sdk/managers/log_collect_strategies/zte.py:234-257 | for every task and trace a failed reading is accepted if and only if its percentage is 100 and, after a trigger, there is evidence of the new run |
| ZteProgress.FailureReportedAsSuccess | redfish_sdk/managers/log_collect_strategies/zte.py:234-280 | when the last reading of a wait is a failed one, which of success, failure and timeout the wait reports |
| ZteProgress.CapturedExactly | redfish_sdk/managers/log_collect_strategies/zte.py:113-122 | a path is captured if and only if the request worked and the path is neither blank nor, up to white space, the idle placeholder |
| ArtifactSearch.FindsExactly | redfish_sdk/managers/log_collect_strategies/base.py:614-629 | the search returns only URIs stored under an artifact key somewhere in the tree, and nothing if and only if there is none at any depth |
| ArtifactSearch.FindsFirst | redfish_sdk/managers/log_collect_strategies/base.py:614-629 | of several artifacts the search returns the one of the first object in document order, where an object comes before everything inside it |
| ArtifactSearch.DirectExactly | redfish_sdk/managers/log_collect_strategies/base.py:615-619 | among an object's own members the first suitable one wins |
| ArtifactSearch.NamesExactly | redfish_sdk/managers/log_collect_strategies/base.py:506-511 | a member names an artifact if and only if its normalised key is one of three and its value begins as a path or an HTTP URL |
| ArtifactSearch.AlphanumericExactly | redfish_sdk/managers/log_collect_strategies/base.py:617 | a key is normalised character by character, keeping letters and digits |
| OemMerge.Oem.PostInit | redfish_sdk/models/oem.py:205-224 | each field ends as the first value in the order Public, then the vendor keys; there is no view if and only if there is no block; running it again would change nothing |
| OemMerge.Oem.MergeKey | redfish_sdk/models/oem.py:207-224 | one vendor key adds its block at the end of the priority order, also when the block is the view itself |
| OemMerge.Oem.Fill | redfish_sdk/models/oem.py:220-224 | only missing fields are filled, also when both views are one object |
| OemMerge.Oem.BlocksInOrder | redfish_sdk/models/oem.py:203-207 | the priority order, key by key |
| OemMerge.Oem.BlockExactly | redfish_sdk/models/oem.py:208-216 | an object or a parsed view is a block, and nothing else is |
| Sequences.CoalesceFirst | redfish_sdk/models/oem.py:217-224 | a merged field is missing if and only if all blocks miss it, and otherwise the first block that has it decides |

## Left out

- HTTP transport, TLS, proxies, logging, redaction, URL parsing, file writing and the parsing of models: library behaviour, represented by outcomes of the environment.
- Finding GPUs by walking systems, processors and PCIe devices: link following; the identities each walk collects are the input of `Add`.
- Sharing of an identity set between the inventory and its caller: the model's sets are values, so a caller that changes a set after `add` is not covered.
- SessionProtocol.SingleFlight: the comparison with the remembered failure reads it three times in the code and is one step here; only an explicit change can come between. The header a request carries is not part of the machine: any answer may follow any observation.
- Transport.Send: a negative back-off makes no sense to a sleeping client; the bound on the sleeps is stated for non-negative ones only.
- Transport.Request: the failure of a refresh is kept apart from a failure of the request itself; the code raises the same exception types for both.
- ETags.CachedPatchReplacesWhatWasSeen: assumes that a service gives every version of a resource its own ETag, and that the ETag of an answer belongs to the requested path. A 201 answer to a POST carries the ETag of the resource created (section 15.3.2 of RFC 9110), which the client stores under the path of the collection; that is not covered.
- Registries: parsing of message identifiers, registry names and references is done before the model starts, and so is the choice of a location by language; `_find_registry` makes the choice of `Find` without an errata and reports another error.
- RegistryCache.RegistriesManager.ResolveFrom: documents do not change during a history, and advertised registries not during one call.
- TaskTheorems.MonitorGets: poll and recovery intervals are not negative, since a negative sleep is an error.
- Collections.GetCollection: answers do not change during one expansion; the fallback without a type adapter is not modelled.
- TaskWait.WaitForOperation: the trace ends where the observation ends, so a wait may be unfinished; delays that are not finite numbers, and dates in Retry-After, are outside; a missing URI and an empty one are not told apart.
- `wait_for_task`, `find_existing_task` and the other log-collection strategies: simpler repeats of the two polling loops.
- OemMerge.Oem.PostInit: a vendor object that is not a valid view makes construction fail before any merging; every object here is valid and has declared fields only.
- Per-resource managers, update strategies, OEM extractors, `_search_oem_for_key` and plain field models: link following and checks that would add only easy members.
