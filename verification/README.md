# go-blackbox: a Dafny model of its algorithms and protocols

go-blackbox is a scaffold for web services in Go. Most of it ties libraries together; this project models
the parts that are algorithms or protocols of its own and proves what they promise. `dafny verify
dfyconfig.toml` checks everything.

Where the source changes objects or buffers in place, there is a class with methods and loops of the same
shape, proved against functions on values; what the source promises is then proved of those functions, over
all inputs and all runs.

| files | what they model |
|---|---|
| `ioc_model.dfy`, `ioc_container.dfy` | the dependency container: lazy construction as a depth-first search with marks, start and shutdown order |
| `ioc_panic.dfy` | the marks that stay when a provider panics |
| `sensitive_text.dfy`, `sensitive_filter.dfy` | the sensitive-word filter: a mutable trie against the plain meaning of an occurrence, masking |
| `forest_model.dfy`, `listing_paths.dfy`, `forest.dfy` | the two forest builders and the traversals, with parent cycles and repeated identifiers in the input |
| `snowflake.dfy` | bit-packed identifiers under an arbitrary clock |
| `token_bucket.dfy` | the token bucket whose key expires |
| `sliding_window.dfy`, `sliding_limit.dfy`, `rate_limiter.dfy` | the sliding-window limiter that filters its buffers in place, and what its limit means when readings overtake one another |
| `lease_lock.dfy` | the leased lock with owner tokens |
| `circuit_breaker.dfy` | the circuit breaker |
| `task_queue.dfy` | the in-process delayed queue with a bound on workers |
| `redis_queue.dfy`, `redis_consumer.dfy` | the Redis queue with delays, retries and dead letters |
| `audit_queue.dfy` | the batching operation log |
| `alert_watcher.dfy` | alert rules with hysteresis |
| `config_merge.dfy` | the merge of layered settings |
| `slashes.dfy` | escaping and unescaping |
| `wrappers.dfy` | values that may be missing |

Concurrency is modelled as interleaved atomic steps: a lemma over every list of events is a statement about
every interleaving. Clocks, sink answers, handler results and OnInit errors are inputs; Redis commands and
scripts are single steps on maps and lists; the codec of stored values keeps all fields apart.

## Where code and documentation differ

The model follows the code. A lemma states each difference.

- `Find` of the word filter is documented to remove duplicates; it returns no text twice only for filters that find
  nothing (`SensitiveFilter.FindIsDistinctIffNothingFindable`). Words with white space inside can be added and
  are never found (`SensitiveText.FindableIffNoSpace`).
- The forest builders are documented to lose no data; they lose exactly the items whose chain of parents runs
  into a cycle (`ForestModel.MissingIffCycle`).
- Snowflake identifiers are documented as always positive; an identifier is positive and gives back its parts
  exactly for stamps in the 2^41 ms after the epoch, the all-zero identifier excepted
  (`Snowflake.ParseRecoversParts`).
- The container's provider wrapper turns a nil pointer into an interface that is not nil, so a typed provider
  that returns nil yields a bean and not ErrInvalidProvider (`Ioc.OnlyNilInterfaceIsInvalid`,
  `IocContainer.Container.RegisterTo`).
- The breaker admits one call more in a half-open episode than its configuration says
  (`CircuitBreaker.EpisodeAdmitsOneMore`). A call admitted before the episode can decide it exactly when it was
  still out at its opening (`CircuitBreaker.LateOutcomeDecidesIffCallOut`). A used-up episode ends only when one of
  the calls out reports, and a call that panics never does (`CircuitBreaker.AdmittedAgainIffCallReports`).
- The Redis queue retries at once, not after the documented second (`RedisQueue.RetryIsNotDelayed`), and a
  delayed submission replaces an equal one that is still waiting (`RedisQueue.SwallowedIffEqualPending`).
- A provider that panics, as MustGetBean does on every error, leaves construction marks behind, and their beans
  are answered with ErrCircularDependency by every get (`IocPanic.RefusedIffLeftMarked`) until a Start makes them
  (`IocPanic.StartBringsBack`).
- Ids are presumed to be unique by the forest builders. With repeated ids `fill` can recurse without end, exactly
  when something below a root leads back to itself (`ListingPaths.RootsEndIffNothingLeadsBack`), and the two
  builders can differ (`Forest.BuildersAgreeIff`).
- A caller of the operation log that has found the queue open panics when Close comes before its send
  (`AuditQueue.CloseIsSafeIffNobodyEnters`).
- The life of a token bucket's key is taken from the limits of the call that wrote it; a later call with other
  limits can notice that the key was dropped (`TokenBucket.ExpiryNeverShowsIffEachOutlasts`).
- Renewing a lock for less than a millisecond gives it up (`LeaseLock.RenewExtendsIffMillisecond`).
- The sliding window reads the clock before it takes the lock. Ordered readings suffice for its limit
  (`SlidingLimit.RunStaysLimited`); readings that lag shorten the window it holds for by exactly the lag
  (`SlidingLimit.LimitHoldsIffShorterByLag`).
- The token bucket's grants are bounded by the forward movement of the clock (`TokenBucket.GrantsAreBounded`),
  and by elapsed time exactly when the clock never goes back
  (`TokenBucket.WithinElapsedIffClockNeverGoesBack`).
- Alert rules that share a name share their counters; rules behave as if alone exactly when those that share a
  name can never reach their thresholds (`AlertWatcher.AllAloneIffSharedNamesAreIdle`).

## Model

| member | source | states |
|---|---|---|
| `Ioc.CircularErrorIffCycle` | framework/gbxioc/container.go:82-155 | For any sequence of gets on a freshly registered container, some request in some call tree is refused as circular if and only if a requested bean reaches a dependency cycle |
| `Ioc.ReachesCycleByRequest` | framework/gbxioc/container.go:119-122 | A bean reaches a cycle exactly when one of the beans its provider requests does |
| `Ioc.GetWithoutRefusal` | framework/gbxioc/container.go:82-133 | A get whose call tree refuses nothing shows its bean, and every bean made on the way, to be free of cycles |
| `Ioc.GetRefusalMeansCycle` | framework/gbxioc/container.go:107-110 | A refusal inside a get, at any depth, is the work of a cycle that the requested bean reaches |
| `Ioc.Get` | framework/gbxioc/container.go:82-133 | get terminates, restores every construction mark it set, loses no cached instance and erases no run |
| `Ioc.SingletonRunsAtMostOnce` | framework/gbxioc/container.go:15-17 | Over any mix of gets and Starts on a freshly registered container a singleton's provider runs at most once, if it never returns a nil interface |
| `Ioc.NilInterfaceRunsAgain` | framework/gbxioc/container.go:126-129 | A singleton whose provider returned a nil interface is not cached, and the next get runs the provider again |
| `Ioc.FilledSingletonsRunAtMostOnce` | framework/gbxioc/api.go:69-133 | In a container filled by the typed registration functions alone, no mix of gets and Starts runs the provider of any singleton twice |
| `Ioc.GetLeavesMarkedUnmade` | framework/gbxioc/container.go:107-130 | A bean under construction gains no instance from the gets issued meanwhile |
| `Ioc.OnlyNilInterfaceIsInvalid` | framework/gbxioc/container.go:126-132 | get answers ErrInvalidProvider if and only if the provider returned a nil interface; a nil pointer inside an interface is handed out as a bean |
| `Ioc.GetAnswers` | framework/gbxioc/container.go:82-155 | Every answer of a get, from what is registered, marked and cached |
| `Ioc.GetCachesWhatRan` | framework/gbxioc/container.go:111-155 | Only singletons are cached, and only when their provider has run |
| `Ioc.SingletonSharesInstance` | framework/gbxioc/container.go:11-17 | All successful gets of one singleton return the same instance |
| `Ioc.GetCachesSingleton` | framework/gbxioc/container.go:111-132 | What a successful get of a singleton returns is what is cached afterwards |
| `Ioc.PrototypeRunsAnew` | framework/gbxioc/container.go:136-155 | A get of a prototype runs its provider anew and hands out what the provider returns in that run, given the answers to its own requests in the state the get found |
| `Ioc.PrototypesShareIffProviderRepeats` | framework/gbxioc/container.go:136-155 | Two gets of one prototype are two runs of its provider, one after the other, and hand out the same instance if and only if the provider, on what each run was answered, returns the same pointer in both |
| `Ioc.LifecycleGet` | framework/gbxioc/container.go:204-228 | getForLifecycle, which looks neither at the mark nor at closed, agrees with get on an unmarked singleton |
| `Ioc.Start` | framework/gbxioc/container.go:159-200 | A whole Start leaves all marks clear and keeps every cached instance, even when it stops at an error |
| `Ioc.StartInitialisesInOrder` | framework/gbxioc/container.go:157-200 | OnInit is called on a prefix, in registration order, of the singletons that still need it, on all of them when Start succeeds, up to and including the failing one when an OnInit fails; exactly the calls that returned no error are recorded as done |
| `Ioc.FailedInitIsCalledAgain` | framework/gbxioc/container.go:192-197 | A bean whose OnInit stopped one Start is not recorded as done, and the next Start that gets as far as it calls it again |
| `Ioc.StartGetsSingletons` | framework/gbxioc/container.go:159-200 | Start gets the singletons one after the other in registration order, all of them when it succeeds; an error is that of the last get or of the OnInit of the last bean got |
| `Ioc.StartCompletes` | framework/gbxioc/container.go:157-200 | After a Start that succeeded every singleton has an instance and every initializer among them has been initialised |
| `Ioc.StartAgainDoesNothing` | framework/gbxioc/container.go:158 | Start on a started container runs nothing, calls nothing and changes nothing |
| `Ioc.StartTwice` | framework/gbxioc/container.go:158 | A second Start after a successful one is a no-op, whatever the OnInits would return |
| `Ioc.DisposesInReverse` | framework/gbxioc/container.go:230-261 | Of two beans to dispose of, Shutdown disposes of the one registered later first |
| `Ioc.DisposesExactly` | framework/gbxioc/container.go:230-261 | Shutdown disposes of exactly the beans that have an instance and implement OnDestroy, each once |
| `IocPanic.PanicLeavesPath` | framework/gbxioc/container.go:119-125 | When a provider panics, the marks that stay are those of the beans on one path of the dependency graph, from the bean requested down to the one whose provider panicked |
| `IocPanic.PanickedBeansAreLost` | framework/gbxioc/container.go:107-125 | After a panic every bean on that path is answered with ErrCircularDependency by all later gets, cycle or not, and no get runs its provider again |
| `IocPanic.RefusedIffLeftMarked` | framework/gbxioc/container.go:82-155 | Between calls of the application, a get of a registered bean is itself answered with ErrCircularDependency if and only if an earlier get, of a bean that reaches it, panicked and left it marked |
| `IocPanic.QuietGet` | framework/gbxioc/container.go:82-155 | When no provider panics, get with panics is the get without |
| `IocPanic.QuietLifecycleGet` | framework/gbxioc/container.go:202-228 | When no provider panics, getForLifecycle with panics is the one without, for singletons that are not marked |
| `IocPanic.StartPanicLeavesPath` | framework/gbxioc/container.go:202-228 | A panic during Start leaves the marks of one path, from the singleton Start was getting, whether it was marked before or not, down to the bean whose provider panicked |
| `IocPanic.StartBringsBack` | framework/gbxioc/container.go:202-228 | getForLifecycle does not look at the mark: a Start that gets a singleton made clears its mark and no other, and later gets return the instance |
| `IocContainer.Container.Register` | framework/gbxioc/container.go:54-79 | Order of the checks (invalid provider, closed, duplicate), nothing changed on an error, the new definition last in the order otherwise |
| `IocContainer.Container.KeysAreApart` | framework/gbxioc/container.go:66-76 | Named beans are told apart by their names, whatever their types, and the others by their types |
| `IocContainer.Container.RegisterTo` | framework/gbxioc/api.go:70-118 | Every error in its order (nil container, type that is no struct, nil provider, closed, duplicate) with nothing changed; otherwise one definition is added whose provider returns what the typed one returns, never a nil interface |
| `IocContainer.Container.RegisterInstanceTo` | framework/gbxioc/api.go:121-133 | Every error in its order with nothing changed; otherwise the instance given is cached from the start and no provider will run for it |
| `IocContainer.Container.Get` | framework/gbxioc/container.go:82-133 | The method over mutable definitions computes the function Ioc.Get, and ErrContainerClosed on a closed container |
| `IocContainer.Container.Resolve` | framework/gbxioc/container.go:99-132 | After the lookup: refusing, returning the cached instance and constructing compute Ioc.Get |
| `IocContainer.Container.RunMarked` | framework/gbxioc/container.go:119-125 | The provider runs with the mark of its bean set, its requests are served in order, and the mark is cleared whatever it returned |
| `IocContainer.Container.Construct` | framework/gbxioc/container.go:119-155 | Setting the mark, running the provider, clearing the mark and caching compute Ioc.Construct |
| `IocContainer.Container.RunProvider` | framework/gbxioc/container.go:122 | The nested gets of a provider compute Ioc.Serve |
| `IocContainer.Container.GetForLifecycle` | framework/gbxioc/container.go:204-228 | Computes Ioc.LifecycleGet |
| `IocContainer.Container.StartBean` | framework/gbxioc/container.go:171-198 | Computes Ioc.StartBean |
| `IocContainer.Container.Initialise` | framework/gbxioc/container.go:186-197 | Calls OnInit unless it was done, and records it only when it succeeded |
| `IocContainer.Container.Start` | framework/gbxioc/container.go:159-200 | Computes Ioc.Start over the registration order |
| `IocContainer.Container.Shutdown` | framework/gbxioc/container.go:232-263 | Disposes of exactly the cached disposers, in reverse registration order, goes on after failures and reports each of them; a second Shutdown does nothing |
| `SensitiveText.Longest` | framework/sensitive/filter.go:143-162 | The longest end at a start: a hit or the start itself, and no hit of that start ends later |
| `SensitiveText.HitIffMatches` | framework/sensitive/filter.go:143-162 | A hit is a stretch that spells a word, white space passed over, and does not end in white space |
| `SensitiveText.TakenAreHits` | framework/sensitive/filter.go:165-178 | Everything the scan takes is a word without its white space, and the longest at its start |
| `SensitiveText.TakenInOrder` | framework/sensitive/filter.go:168-175 | The hits taken follow one another without overlap |
| `SensitiveText.TakenIffScan` | framework/sensitive/filter.go:165-178 | The hits taken are the only ones that are the longest at their start, follow one another, and leave no hit starting outside of them |
| `SensitiveText.EveryHitIsCut` | framework/sensitive/filter.go:165-178 | Every occurrence of a word anywhere in the text loses a character that is not white space to some hit that is taken |
| `SensitiveText.ContainsIffTaken` | framework/sensitive/filter.go:81-89 | The scan takes something if and only if some stretch of the text, without its white space, is a word |
| `SensitiveText.HasHitIffStripped` | framework/sensitive/filter.go:143-178 | A text has a hit if and only if a word stands, character by character, in what is left of it without white space |
| `SensitiveText.MaskedKeeps` | framework/sensitive/filter.go:103-132 | Masking keeps the length and all white space, and changes to the mask exactly the other characters that lie in a hit that is taken |
| `SensitiveText.HitOfMaskedIsUnmarked` | framework/sensitive/filter.go:103-132 | With a neutral mask, an occurrence in the masked text is one of the original that touches no masked character |
| `SensitiveText.MaskedIsClean` | framework/sensitive/filter.go:103-132 | A masked text contains no word, when the mask is not white space and occurs in no word |
| `SensitiveText.MaskingIsIdempotent` | framework/sensitive/filter.go:103-132 | Masking a masked text changes nothing |
| `SensitiveText.MaskWordIsNeverClean` | framework/sensitive/filter.go:103-132 | With a mask that is itself a word, a masked text contains a word if and only if the text did |
| `SensitiveText.SpaceMaskDeletes` | framework/sensitive/filter.go:103-132 | Masking with white space is deleting: the masked text contains a word if and only if one stands in the characters that are neither masked nor white space |
| `SensitiveText.SpaceMaskMakesHit` | framework/sensitive/filter.go:103-132 | Masking with white space can join what stood on the two sides of a hit into a word |
| `SensitiveText.FindableIffNoSpace` | framework/sensitive/filter.go:51-68 | An added word can be found in some text if and only if it has no white space inside |
| `SensitiveText.DoubledWordIsTakenTwice` | framework/sensitive/filter.go:165-178 | A longest findable word, written twice, is taken twice |
| `SensitiveFilter.FindIsDistinctIffNothingFindable` | framework/sensitive/filter.go:91-100 | Find is documented to remove duplicates; it returns no text twice, on all texts, if and only if no added word is free of white space |
| `SensitiveText.SpacedWordsAreDead` | framework/sensitive/filter.go:145-162 | Dropping the words with inner white space changes no hit |
| `SensitiveText.TrimSpaceIsInside` | framework/sensitive/filter.go:52 | Trimming finds what stands between the white space at the two ends of a text, on every text, and there is only one such text |
| `SensitiveFilter.NoHitBehind` | framework/sensitive/filter.go:154-157 | Where the trie has no way on, no hit of this start ends further on, so the search may stop |
| `SensitiveFilter.Filter.constructor` | framework/sensitive/filter.go:32-38 | The words are exactly the non-empty texts that stand inside the white space at the ends of the members of the list |
| `SensitiveFilter.PlainListIsTaken` | framework/sensitive/filter.go:32-38 | A list whose words neither begin nor end with white space is taken as it is, the empty word aside |
| `SensitiveFilter.Filter.Add` | framework/sensitive/filter.go:41-48 | The set of words grows by what stands inside the white space at the ends of the word, unless that is empty |
| `SensitiveFilter.Filter.AddTrimmed` | framework/sensitive/filter.go:51-68 | The trie after an insertion represents the old words and the new one, and size is their number |
| `SensitiveFilter.Filter.Descend` | framework/sensitive/filter.go:57-62 | The child for a character, made when missing; no other path changes |
| `SensitiveFilter.Filter.Grow` | framework/sensitive/filter.go:59-61 | A new node is linked below its parent and stands for the parent's path and the character |
| `SensitiveFilter.Filter.MarkEnd` | framework/sensitive/filter.go:64-67 | Marking the end adds exactly this word; size grows only when it is new |
| `SensitiveFilter.Filter.Size` | framework/sensitive/filter.go:71-78 | The number of distinct words |
| `SensitiveFilter.Filter.MatchEnd` | framework/sensitive/filter.go:145-162 | The trie walk that skips white space finds the end of the longest hit |
| `SensitiveFilter.Filter.Scan` | framework/sensitive/filter.go:165-178 | The texts returned are the hits of the specification, in order, with their white space |
| `SensitiveFilter.Filter.Find` | framework/sensitive/filter.go:92-100 | All hits of the scan in order of position, none removed |
| `SensitiveFilter.Filter.Contains` | framework/sensitive/filter.go:81-89 | True if and only if some stretch of the text is a word |
| `SensitiveFilter.Filter.Validate` | framework/sensitive/filter.go:135-141 | True if and only if no stretch of the text is a word; otherwise the hits of the scan |
| `SensitiveFilter.Filter.Replace` | framework/sensitive/filter.go:103-132 | The loops in place compute the masked text; the zero rune stands for * |
| `SensitiveFilter.Filter.MarkPositions` | framework/sensitive/filter.go:111-124 | The positions marked are those inside a taken hit that are not white space |
| `ForestModel.ForestIsUnique` | component/util/tree.go:28-49 | A list has at most one ordered forest |
| `ForestModel.RootsAre` | component/util/tree.go:42-45 | The roots are the items whose parent is the root parent or is missing, in list order |
| `ForestModel.KidsAre` | component/util/tree.go:46 | The children of an item are those that name it, in list order |
| `ForestModel.RootIffNoParent` | component/util/tree.go:42-45 | An item is among the roots if and only if its parent is the root parent or the id of no item |
| `ForestModel.KidIffNamesParent` | component/util/tree.go:46 | An item is among the children of an id if and only if it names it as parent, some item has it, and it is not the root parent |
| `ForestModel.DepthIsBounded` | component/util/fill_tree.go:55-69 | A chain that reaches a root is shorter than the list, so the recursion from the roots ends even with cycles elsewhere |
| `ForestModel.FlattenedExactly` | component/util/tree.go:24-49 | Flattening the forest yields each item whose chain of parents reaches a root exactly once, and no other item |
| `ForestModel.FlattenedParentsFirst` | component/util/tree.go:73-88 | In the flattened forest every item is a root or comes after its parent |
| `ForestModel.FlattenedKeepsSiblingOrder` | component/util/tree.go:27 | In the flattened forest roots keep the list order, and so do the children of each item |
| `ForestModel.MissingIffCycle` | component/util/tree.go:26 | An item is missing from the forest if and only if its chain of parents runs into a cycle; the documented "no data lost" holds for all others |
| `Forest.BuildTree` | component/util/tree.go:28-49 | On every list: the last node of an identifier holds its item and, in order, the nodes found for the children listed for it; the roots are the nodes found for the root items, in order |
| `Forest.BuiltNodesUnfold` | component/util/tree.go:28-49 | Where the walks down from all roots end, the nodes BuildTree returns unfold to the forest of the list, with unique ids the one ForestModel describes |
| `Forest.BuiltUnfoldsIffRootsEnd` | component/util/tree.go:28-49 | The nodes BuildTree returns unfold to finite trees, so that a traversal of them ends, if and only if the walks down from all roots end |
| `ListingPaths.EndsIffNoPathRepeats` | component/util/fill_tree.go:55-69 | On every list: fill ends on an identifier if and only if no path of listed children from it meets an identifier twice |
| `ListingPaths.RootsEndIffNothingLeadsBack` | component/util/fill_tree.go:55-69 | On every list: fill ends on every root if and only if nothing below a root leads back to itself |
| `ListingPaths.EndedWalkIsShallow` | component/util/fill_tree.go:55-69 | Where fill ends, its calls are nested no deeper than there are items |
| `ListingPaths.DistinctIdsEnd` | component/util/fill_tree.go:55-69 | With unique ids fill ends below every root, with no more nested calls than there are items |
| `ListingPaths.RepeatedIdIsItsOwnChild` | component/util/fill_tree.go:55-69 | A list of two items with one id, one the child of the other, on which fill does not end |
| `Forest.FlattenTree` | component/util/tree.go:74-88 | The recursion that appends to a captured list yields the preorder; nil nodes are passed over |
| `Forest.NilIsPassedOver` | component/util/tree.go:77-79 | A nil entry anywhere in a list of nodes changes nothing in what is traversed |
| `Forest.WalkTree` | component/util/tree.go:91-103 | The walk calls back in preorder with the depths of the specification |
| `Forest.VisitsReportDepth` | component/util/tree.go:98-99 | The depth reported is the number of parent steps to the root |
| `Forest.VisitsFollowPreorder` | component/util/tree.go:91-103 | WalkTree and FlattenTree visit the items in the same order |
| `Forest.GroupByParent` | component/util/fill_tree.go:39-54 | On every list: the grouping loop collects the child ids of every parent and the root positions, in list order |
| `Forest.BuildIdIndex` | component/util/fill_tree.go:34-37 | The index finds exactly the ids of the list, and for each the last item that has it |
| `Forest.Fill` | component/util/fill_tree.go:55-69 | Where fill ends: filling in place completes the item found for the id with its whole tree and leaves every other item untouched or complete |
| `Forest.FillAll` | component/util/fill_tree.go:62-67 | Where fill ends: the children collected are complete when they are copied into their parent |
| `Forest.FillTree` | component/util/fill_tree.go:26-78 | Where fill ends on every root: the items returned are the root items, each with its whole tree, or as it came when a later item has its id |
| `Forest.FilledItem` | component/util/fill_tree.go:55-69 | Filling leaves an item as it came when it has no listed children or a later item has its id, and otherwise gives it the listed items as children, in order |
| `Forest.BuildersAgree` | component/util/fill_tree.go:3-5 | With unique ids FillTree and BuildTree make the same ordered forest |
| `Forest.BuildersAgreeIff` | component/util/fill_tree.go:3-5 | On every list on which both end, FillTree and BuildTree make the same ordered forest if and only if every root is the last item with its id, or equals that item and has no children |
| `Snowflake.ParseRecoversParts` | framework/database/id/snowflake.go:98-119 | Parsing recovers exactly the stamp, node and sequence packed, if and only if the stamp lies in the 2^41 ms after the epoch and the id is not zero |
| `Snowflake.PackIsMonotone` | framework/database/id/snowflake.go:98-100 | Ids with fitting stamps are ordered by stamp, then node, then sequence |
| `Snowflake.PackIsSum` | framework/database/id/snowflake.go:98-100 | The shifts and ors are a positional sum, with the stamp folded into its bits |
| `Snowflake.OrAndByBits` | framework/database/id/snowflake.go:98-117 | Bitwise or and and act bit by bit on two's-complement numbers |
| `Snowflake.ParseIsDivision` | framework/database/id/snowflake.go:114-117 | The shifts and masks are divisions and remainders |
| `Snowflake.FirstLater` | framework/database/id/snowflake.go:89-91 | The spin loop ends at the first reading later than the last stamp |
| `Snowflake.SequenceStep` | framework/database/id/snowflake.go:86 | The masked increment goes up by one and from the last number to zero |
| `Snowflake.NextAdvances` | framework/database/id/snowflake.go:67-101 | A call that issues an id advances the pair of stamp and sequence; a refused call changes nothing |
| `Snowflake.RefusedIffBehind` | framework/database/id/snowflake.go:70-83 | A call answers ErrClockBackward if and only if the clock is more than 5 ms behind, or behind and still behind when it is read again |
| `Snowflake.IssuedIffAccepted` | framework/database/id/snowflake.go:70-101 | A call issues an id if and only if a reading is accepted and there is a number for it |
| `Snowflake.LaterStampStartsAtZero` | framework/database/id/snowflake.go:93-96 | An accepted reading later than the last stamp issues the id with this stamp and number 0 |
| `Snowflake.EqualStampTakesNext` | framework/database/id/snowflake.go:85-86 | An accepted reading equal to the last stamp issues the id with the next number, while one of the 4096 is left |
| `Snowflake.UsedUpTakesLaterStamp` | framework/database/id/snowflake.go:87-92 | When all 4096 numbers are used, the first later reading issues the id with number 0 |
| `Snowflake.RunAdvances` | framework/database/id/snowflake.go:66-101 | Over any clock, each id comes after all earlier ones in stamp and sequence |
| `Snowflake.IssuedIsListed` | framework/database/id/snowflake.go:66-101 | Every id that a call of a run issues is listed by the run |
| `Snowflake.IdsAreDistinct` | framework/database/id/snowflake.go:47-101 | One generator never issues an id twice, through stalls, jumps and backward steps and through changes of node |
| `Snowflake.IdsIncrease` | framework/database/id/snowflake.go:60-101 | With a fixed node the ids strictly increase |
| `Snowflake.NodesNeverCollide` | framework/database/id/snowflake.go:48 | Generators with different fixed nodes never issue the same id |
| `Snowflake.Generator.SetNode` | framework/database/id/snowflake.go:50-58 | Refuses nodes outside 0 to 1023, changes the node and nothing else |
| `Snowflake.Generator.NextID` | framework/database/id/snowflake.go:67-101 | The method over the fields computes the specified step |
| `TokenBucket.ExpiryIsInvisible` | framework/ratelimit/limiter.go:37-38 | With the same limits in every call, letting keys expire changes neither a decision nor a state, for every clock |
| `TokenBucket.ExpiryNeverShowsIffEachOutlasts` | framework/ratelimit/limiter.go:37-82 | With limits that change from call to call: all calls, whatever they ask for and when, go as if no key expired, if and only if the life of a key under each limits is long enough for an empty bucket to fill up under the next |
| `TokenBucket.ExpiredIsFull` | framework/ratelimit/limiter.go:38 | A key may expire only when its bucket would be full |
| `TokenBucket.RunKeepsBounds` | framework/ratelimit/limiter.go:30-37 | Every run of the script keeps the tokens between zero and the burst, and the deadline at the stamp plus the life of the key |
| `TokenBucket.GrantsAreBounded` | framework/ratelimit/limiter.go:15-40 | Grants of any run are at most the burst plus the rate times the time the clock moved forward |
| `TokenBucket.GrantsAreBoundedByElapsedTime` | framework/ratelimit/limiter.go:15-40 | With a clock that never goes back, grants are at most the burst plus the rate times the elapsed time |
| `TokenBucket.GrantedIffEveryWindowAllows` | framework/ratelimit/limiter.go:30-37 | Over every run of a new key, a request is granted if and only if, with it, no window that begins with an earlier request or with itself is granted more than the burst and what comes in its time |
| `TokenBucket.GrantedIffCovered` | framework/ratelimit/limiter.go:30-36 | A request is granted if and only if it asks for no more than the burst, and what is left in the bucket and what has come since cover it |
| `TokenBucket.BurstIsGranted` | framework/ratelimit/limiter.go:30-36 | A new key grants all requests that add up to no more than the burst, whatever their times |
| `TokenBucket.StepLeavesTheRest` | framework/ratelimit/limiter.go:30-37 | A request leaves the tokens there were and those that came, up to the burst, less what was granted |
| `TokenBucket.LifeIsTwiceTheFill` | framework/ratelimit/limiter.go:38 | A key lives twice as long as an empty bucket takes to fill up, counted in whole milliseconds |
| `TokenBucket.WithinElapsedIffClockNeverGoesBack` | framework/ratelimit/limiter.go:30-37 | At given times, elapsed time bounds the grants for all limits, buckets and requests if and only if the clock never goes back between them |
| `TokenBucket.GreedyTakesAll` | framework/ratelimit/limiter.go:30-37 | With one token a millisecond and room enough, greedy requests get exactly the time the clock moves forward |
| `TokenBucket.GrantedAfterIdle` | framework/ratelimit/limiter.go:31-36 | A request up to the burst is granted after the time its tokens take to refill |
| `TokenBucket.NeverMoreThanBurst` | framework/ratelimit/limiter.go:31-33 | A request beyond the burst is never granted |
| `TokenBucket.Limiter.AllowN` | framework/ratelimit/limiter.go:60-82 | Bad parameters are rejected without touching the store; otherwise the script on this key alone |
| `TokenBucket.Limiter.Reset` | framework/ratelimit/limiter.go:85-97 | The next request for this key finds a full bucket, and every other key is found as before |
| `SlidingWindow.PruningIsInvisible` | framework/notify/ratelimit.go:32-53 | With a clock that never goes back, the pruning limiter answers like one that keeps every accepted time |
| `SlidingWindow.CleanIsInvisible` | framework/notify/ratelimit.go:66-88 | Calling Clean anywhere changes no answer |
| `SlidingLimit.LimitHoldsIffShorterByLag` | framework/notify/ratelimit.go:32-88 | The clock is read before the lock is taken. When readings lag at most so much behind the latest, the limit is kept in windows of a length, in every run, if and only if the length is at most the configured window less the lag |
| `SlidingLimit.LaggingRunStaysLimited` | framework/notify/ratelimit.go:32-53 | With readings that lag at most so much, every window shorter by the lag has at most max accepted calls of a key |
| `SlidingLimit.RunStaysLimited` | framework/notify/ratelimit.go:20-53 | With ordered readings, every whole window has at most max accepted calls of a key |
| `SlidingLimit.AllowedIffRoom` | framework/notify/ratelimit.go:32-53 | With ordered readings, a call is let in if and only if the limiter is switched off, or fewer than max calls of its key were let in within the window that ends now |
| `SlidingLimit.OvertakingBreaksTheLimit` | framework/notify/ratelimit.go:36-39 | For every limit: max calls at once, a Clean a window later and a call whose reading lags put one call more than allowed into any longer window |
| `RateLimiterImpl.History.Prune` | framework/notify/ratelimit.go:41-46 | Filtering into the same buffer keeps exactly the times later than the cutoff, in order |
| `RateLimiterImpl.History.Append` | framework/notify/ratelimit.go:51 | The new time comes last, in the same buffer or a larger copy |
| `RateLimiterImpl.RateLimiter.Allow` | framework/notify/ratelimit.go:32-53 | The method over shared buffers takes the specified step and answer |
| `RateLimiterImpl.RateLimiter.Clean` | framework/notify/ratelimit.go:67-88 | The loop over all keys, in any order, leaves under each key what has not left the window, and no key with nothing left |
| `RateLimiterImpl.CleanedIsStep` | framework/notify/ratelimit.go:67-88 | What Clean leaves under each key determines the state, and it is the one the specified Clean leaves |
| `LeaseLock.StaleTokenIsPowerless` | framework/cache/lock.go:79-120 | Unlock and Renew with a token that is not the holder's change nothing |
| `LeaseLock.RenewExtendsIffMillisecond` | framework/cache/lock.go:100-120 | A renewal by the holder extends the lease by the whole milliseconds it asks for if and only if there is at least one; a shorter one gives the lock up |
| `LeaseLock.LeaseStaysInForce` | framework/cache/lock.go:28-120 | While its owner does not unlock, a lease stays in force until its end as extended, whatever the others do |
| `LeaseLock.AcquisitionsAreALeaseApart` | framework/cache/lock.go:26-51 | Two successful TryLocks of one key with no release by the owner between them are at least the whole lease apart, as extended by its renewals |
| `LeaseLock.UnrenewedLease` | framework/cache/lock.go:43 | Without renewals the end of a lease stays what the acquisition set |
| `LeaseLock.HeldExactlyForItsTime` | framework/cache/lock.go:28-51 | While nobody uses its token, a lease that was acquired is held exactly until its time is over |
| `LeaseLock.LeaseLastsItsTime` | framework/cache/lock.go:36-43 | A new lease lasts the whole milliseconds of the time asked for, at least one, and 30 s when none is asked for |
| `LeaseLock.AcquirableAfterLease` | framework/cache/lock.go:43-50 | TryLock succeeds if and only if the key is free or its lease has ended |
| `LeaseLock.Acquire` | framework/cache/lock.go:28-51 | Returns a lock exactly when the key was acquired, with its token and the lease in effect (30 s by default) |
| `LeaseLock.WaitEndsInOneWay` | framework/cache/lock.go:55-77 | A wait for a lock comes to exactly one end: the first attempt that succeeds, or the first that fails later than the deadline |
| `LeaseLock.AcquireWithin` | framework/cache/lock.go:55-77 | The retry loop returns the first attempt that succeeds, or gives up at the first failed attempt after the deadline (5 s by default) |
| `LeaseLock.Lock.Release` | framework/cache/lock.go:81-98 | Takes the specified Unlock step with the token of this lock |
| `LeaseLock.Lock.Extend` | framework/cache/lock.go:101-120 | Takes the specified Renew step; a duration of zero or less stands for the lease of this lock |
| `LeaseLock.ReleaseFreesKey` | framework/cache/lock.go:79-98 | The holder's release frees the key at once, and no step about another key touches this one |
| `CircuitBreaker.WindowIsForgotten` | framework/circuit/circuit.go:171-173 | When the window is over, the next call, or the next outcome that does not open the breaker, forgets what was counted |
| `CircuitBreaker.ClosedCountsReports` | framework/circuit/circuit.go:201-214 | Within the window and short of the minimum, every call is admitted and the counters are exactly the successes and failures reported |
| `AuditQueue.OnlyFullBatches` | framework/audit/queue.go:152-155 | While neither the timer fires nor Close comes, every batch written is full |
| `RedisQueue.RunIsFifo` | framework/taskqueue/redqueue/redqueue.go:106-208 | Over every run, what stood in the list followed by what entered it, new, due in order of time, failed or dead, is handed out in exactly that order |
| `CircuitBreaker.Normalize` | framework/circuit/circuit.go:82-101 | Every field that is valid stays as it is, and every other one gets its default |
| `CircuitBreaker.OpensExactlyAtMinRequests` | framework/circuit/circuit.go:197-243 | An outcome opens a closed breaker if and only if it completes the minimum number of requests and the failures among them reach the threshold; otherwise the counts start again when the minimum is complete or the window is over, and else grow by this outcome |
| `CircuitBreaker.OpenAdmitsAfterCooldown` | framework/circuit/circuit.go:175-184 | An open breaker admits a call if and only if the cooldown has passed, and is half open then |
| `CircuitBreaker.RunKeepsInv` | framework/circuit/circuit.go:163-249 | In every run of calls and outcomes a closed breaker holds fewer than the minimum of outcomes, and an open one exactly the minimum with a rate at the threshold or the failed trial |
| `CircuitBreaker.NothingAdmittedInCooldown` | framework/circuit/circuit.go:175-184 | While the cooldown lasts nothing is admitted, whatever late outcomes come in |
| `CircuitBreaker.HalfOpenAdmits` | framework/circuit/circuit.go:185-190 | A half-open breaker admits what is left of the configured number |
| `CircuitBreaker.EpisodeAdmitsOneMore` | framework/circuit/circuit.go:175-190 | An episode admits the call that opens it and the configured number besides: one more than the configuration says |
| `CircuitBreaker.OutcomeEndsEpisode` | framework/circuit/circuit.go:215-226 | Any outcome ends the episode: a success closes with an empty window, a failure starts a new cooldown |
| `CircuitBreaker.DecidedByCallOut` | framework/circuit/circuit.go:175-226 | The outcome that ends an episode is that of a call admitted in it, or of one that was still out when it was opened, and any of these can end it |
| `CircuitBreaker.LateOutcomeDecidesIffCallOut` | framework/circuit/circuit.go:215-226 | After every run, an episode can be decided by a call admitted before it if and only if some call was still out when it was opened |
| `CircuitBreaker.CallsCanBeOut` | framework/circuit/circuit.go:144-243 | With every configuration there are runs that open the breaker with a call still out |
| `CircuitBreaker.UnreportedEpisodeNeverEnds` | framework/circuit/circuit.go:144-160 | When the calls of a used-up episode never report, because they panic, nothing is admitted any more at any time |
| `CircuitBreaker.AdmittedAgainIffCallReports` | framework/circuit/circuit.go:144-226 | After a used-up episode something is admitted again, in some continuation, if and only if one of the calls still out reports |
| `CircuitBreaker.Breaker.AllowCall` | framework/circuit/circuit.go:163-194 | The method over the fields takes the specified step and answer |
| `CircuitBreaker.Breaker.RecordOutcome` | framework/circuit/circuit.go:197-227 | The method over the fields takes the specified step |
| `CircuitBreaker.Breaker.EvaluateWindow` | framework/circuit/circuit.go:230-243 | Computes the specified evaluation |
| `CircuitBreaker.Breaker.RollWindow` | framework/circuit/circuit.go:246-249 | Empties the window and starts it now |
| `TaskQueue.PassLaunchesDueInOrder` | framework/taskqueue/taskqueue.go:102-142 | A pass launches exactly the due tasks, in stable order of their times, and leaves the others in their order |
| `TaskQueue.StableSortIsUnique` | framework/taskqueue/taskqueue.go:22 | A list of tasks has only one stable order of its times |
| `TaskQueue.RunKeepsInv` | framework/taskqueue/taskqueue.go:83-142 | In every interleaving of submitters, one scheduling loop and workers, each submission is in one place, ids are unique, nothing starts early and no more workers run than configured |
| `TaskQueue.StartedAtMostOnce` | framework/taskqueue/taskqueue.go:110-119 | No submission is started twice, and everything started was submitted |
| `TaskQueue.StartsAfterItsDelay` | framework/taskqueue/taskqueue.go:43-121 | Over every run, a submission is not started before the delay it asked for has passed since it was appended; a negative delay counts as none |
| `TaskQueue.SubmissionsStay` | framework/taskqueue/taskqueue.go:43-142 | Nothing submitted is given up: it is pending, held by the loop, or started |
| `TaskQueue.WakingLoopMakesPass` | framework/taskqueue/taskqueue.go:64-121 | A loop that wakes with workers enough launches what a pass launches that reads the clock at this moment, and then waits |
| `TaskQueue.DueMembers` | framework/taskqueue/taskqueue.go:127-135 | Due is what has a time up to now |
| `TaskQueue.SubmitAppends` | framework/taskqueue/taskqueue.go:43-62 | A submission waits under a number of its own until exactly its delay has passed |
| `TaskQueue.Earliest` | framework/taskqueue/taskqueue.go:127-135 | The loop finds the first of the due tasks with the smallest time, or that nothing is due |
| `TaskQueue.Queue.Submit` | framework/taskqueue/taskqueue.go:43-62 | Appends one entry with a new identifier; a negative delay counts as none |
| `TaskQueue.Queue.PopDue` | framework/taskqueue/taskqueue.go:124-142 | Takes out the first of the earliest due entries, keeping the order of the others, or nothing when none is due |
| `TaskQueue.Queue.DispatchDue` | framework/taskqueue/taskqueue.go:102-121 | A pass that no submission disturbs launches until nothing is due and counts each launch as running |
| `TaskQueue.Queue.AwaitWorker` | framework/taskqueue/taskqueue.go:110-112 | Waits until a worker is free, and not at all when one is |
| `RedisQueue.EachTaskInOnePlace` | framework/taskqueue/redqueue/redqueue.go:88-311 | After every interleaving of submitters, consumers, moves, requeues and crashes, each submission is in exactly one of list, delayed set, a consumer's hand, dead list, done, superseded and lost |
| `RedisQueue.RunKeepsInv` | framework/taskqueue/redqueue/redqueue.go:88-311 | After every interleaving, retry counts are right everywhere, every dead letter carries the limit, and only what is due has left the ordered delayed set |
| `RedisQueue.RunsAreBounded` | framework/taskqueue/redqueue/redqueue.go:131-194 | With a limit, a handler is given one submission at most once more than the limit, and once more for each requeue |
| `RedisQueue.NeverHandedEarly` | framework/taskqueue/redqueue/redqueue.go:88-311 | Over every run, no submission is listed, handed out or settled before the millisecond of its submission time and the delay it asked for |
| `RedisQueue.SubmissionsKeepDataAndTime` | framework/taskqueue/redqueue/redqueue.go:88-113 | Over every run, a submission is found everywhere with the payload it was submitted with, and due at its submission time with the delay added |
| `RedisQueue.DueIsMoved` | framework/taskqueue/redqueue/redqueue.go:300-311 | Once its delay has passed, the next Move that meets at most a hundred due members lists a submission that was waiting |
| `RedisQueue.MoveTakesUpToAHundred` | framework/taskqueue/redqueue/redqueue.go:300-311 | A Move lists, in order, the first hundred due members, or all that are due |
| `RedisQueue.HandlerDecides` | framework/taskqueue/redqueue/redqueue.go:158-194 | A handler is given the task at the tail; success settles it, failure short of the limit puts it back at the head with one retry more, and failure at the limit makes it a dead letter of that moment |
| `RedisQueue.RequeuePutsBack` | framework/taskqueue/redqueue/redqueue.go:271-297 | A dead letter put back enters the list with its retry count, and the first letter equal to it is removed |
| `RedisQueue.LetInIffInTime` | framework/taskqueue/redqueue/redqueue.go:88-113 | A submission with a payload is let in, at once without a delay, and with one at every place that keeps the order of times of the others |
| `RedisQueue.NothingDiesWithoutLimit` | framework/taskqueue/redqueue/redqueue.go:54 | With a limit of zero or less nothing is ever given up |
| `RedisQueue.SwallowedIffEqualPending` | framework/taskqueue/redqueue/redqueue.go:108-111 | A submission is swallowed if and only if some later delayed submission finds this one waiting with an equal payload |
| `RedisQueue.ConsumerEmptiesList` | framework/taskqueue/redqueue/redqueue.go:135-196 | With a limit, however the handlers end, one consumer settles everything listed within the sum of the runs left |
| `RedisQueue.FailuresNeverEnd` | framework/taskqueue/redqueue/redqueue.go:54 | Without a limit a handler that always fails keeps the list as long as it is, for ever |
| `RedisQueue.RetryIsNotDelayed` | framework/taskqueue/redqueue/redqueue.go:131-133 | The documented delay of 1 s before a retry does not exist: in every reachable queue, after a failure, as many pops as entries were listed, at one and the same time, hand out the others and then the failed one again, if and only if the limit leaves it a retry |
| `RedisConsumer.Queue.Submit` | framework/taskqueue/redqueue/redqueue.go:88-113 | Refuses an empty payload; otherwise takes the specified Submit step |
| `RedisConsumer.Queue.Add` | framework/taskqueue/redqueue/redqueue.go:109 | ZADD: the member is there once, with the new score, at a place that keeps the order |
| `RedisConsumer.Queue.MoveDueTasks` | framework/taskqueue/redqueue/redqueue.go:300-311 | The script moves the earliest due members, at most 100, in order: the specified Move step |
| `RedisConsumer.Queue.PopTail` | framework/taskqueue/redqueue/redqueue.go:158 | BRPOP takes the value at the tail: the specified Pop step |
| `RedisConsumer.Queue.Settle` | framework/taskqueue/redqueue/redqueue.go:176-194 | After the handler: the specified Settle step, with requeue and pushDead on the stored values |
| `RedisConsumer.Queue.Consume` | framework/taskqueue/redqueue/redqueue.go:135-196 | The loop takes the specified turns one after the other |
| `RedisConsumer.Queue.TakeTurn` | framework/taskqueue/redqueue/redqueue.go:145-194 | One turn is a Tick, a Move, a Pop and a Settle |
| `RedisConsumer.TurnTakesDueTask` | framework/taskqueue/redqueue/redqueue.go:145-194 | A turn looks for due tasks before it pops: with nothing listed, the first task whose time has come is handed out in the same turn |
| `RedisConsumer.Queue.RequeueDeadLetter` | framework/taskqueue/redqueue/redqueue.go:271-297 | Refuses an index out of range without a change; otherwise the specified Requeue step |
| `AuditQueue.RunKeepsInv` | framework/audit/queue.go:71-159 | In every interleaving, with the check and the send of Enqueue as two steps, the batches written, the open batch and the channel are together exactly what was let in, in order; batches have 1 to 100 entries; failed is the size of the failing batches and dropped the number turned away |
| `AuditQueue.FinishedMeansHandedOver` | framework/audit/queue.go:89-109 | When the consumer has finished, everything let in has been handed over, in order |
| `AuditQueue.CloseDrains` | framework/audit/queue.go:89-109 | After Close the consumer finishes after one receive more than the channel holds, whatever happens between |
| `AuditQueue.LetInIffOpenAndRoom` | framework/audit/queue.go:78-86 | An entry is let in if and only if its caller sends while the queue is open and not full; whoever finds it full is counted as dropped |
| `AuditQueue.ChecksIffOpen` | framework/audit/queue.go:75-81 | A caller that checks goes on when the queue is open, and is turned away and counted when it is closed |
| `AuditQueue.ConsumerTakesAndHandsOver` | framework/audit/queue.go:143-157 | The consumer takes the oldest entry; a hundredth entry, the timer and the end of a closed channel hand over everything taken so far, and nothing else does |
| `AuditQueue.EveryEntryIsAccounted` | framework/audit/queue.go:71-87 | In every interleaving, every entry given to Enqueue was let in, was turned away, is between check and send, or made its caller panic |
| `AuditQueue.CloseIsSafeIffNobodyEnters` | framework/audit/queue.go:71-100 | Close can make a caller panic if and only if some caller stands between its check and its send |
| `AuditQueue.Queue.constructor` | framework/audit/queue.go:51-68 | A size of zero or less becomes 1024 |
| `AuditQueue.Queue.Enqueue` | framework/audit/queue.go:71-87 | With nothing between them, the check and the send are the specified two steps, and the caller does not panic |
| `AuditQueue.Queue.IsOpen` | framework/audit/queue.go:75-81 | The first step: a caller that finds the queue closed is turned away and counted |
| `AuditQueue.Queue.SendEntry` | framework/audit/queue.go:82-86 | The second step: the caller panics if the channel was closed in between, is turned away when it is full, and otherwise puts its entry last |
| `AuditQueue.Queue.Close` | framework/audit/queue.go:90-109 | Takes the specified Close step, once |
| `AuditQueue.Queue.ReceiveOne` | framework/audit/queue.go:147-155 | Takes the specified Receive step over the reused buffer |
| `AuditQueue.Queue.TimerFires` | framework/audit/queue.go:156-157 | Takes the specified Timer step |
| `AuditQueue.Queue.WriteBatch` | framework/audit/queue.go:132-140 | Hands exactly the buffered entries to the sink and starts the buffer again |
| `AuditQueue.Queue.Consume` | framework/audit/queue.go:128-159 | The loop takes the specified steps in any schedule |
| `AlertWatcher.AlertingIffLastRunIsHigh` | framework/alert/alert.go:199-240 | A rule alerts if and only if the most recent run of enough consecutive samples on one side was at or above the threshold |
| `AlertWatcher.CountersAreRuns` | framework/alert/alert.go:152-156 | The counters are the lengths of the runs the history ends with |
| `AlertWatcher.MessagesAlternate` | framework/alert/alert.go:145-146 | Alerts and recoveries alternate, an alert first |
| `AlertWatcher.MessagesNeedRuns` | framework/alert/alert.go:61-62 | Each message costs a full run of samples |
| `AlertWatcher.MessagesTellOfSamples` | framework/alert/alert.go:199-240 | Every message tells of a rule and a sample: an alert names the level and a value at or above the threshold, a recovery a value below it |
| `AlertWatcher.TickSendsInOrder` | framework/alert/alert.go:193-195 | Rules with different names send their messages of a tick in the order of the rules |
| `AlertWatcher.RuleIsIndependent` | framework/alert/alert.go:188-206 | A rule with a name of its own behaves, in state and messages, as if it were alone |
| `AlertWatcher.AllAloneIffSharedNamesAreIdle` | framework/alert/alert.go:188-206 | All rules of a list behave as if alone, whatever is sampled, if and only if rules that share a name can never reach their thresholds |
| `AlertWatcher.SharedNameInterferes` | framework/alert/alert.go:201-205 | A single sample at the threshold of a rule that shares its name already makes some rule of that name differ from itself alone |
| `AlertWatcher.Watcher.constructor` | framework/alert/alert.go:159-169 | Rules are normalised: at least one sample, a default level, and zero for a missing check |
| `AlertWatcher.NormalizedRule` | framework/alert/alert.go:118-129 | A rule needs at least one sample, has the level warning when it names none, and measures zero without a check |
| `AlertWatcher.Watcher.Tick` | framework/alert/alert.go:188-196 | A tick evaluates every rule in order on the sample; a failed collection evaluates none |
| `AlertWatcher.Watcher.Evaluate` | framework/alert/alert.go:199-240 | The method over the state map takes the specified step and sends the specified messages |
| `ConfigMerge.SourceWinsPathByPath` | framework/config/load.go:175-194 | At every path the source wins where it has something, two tables stay a table, and elsewhere the base shows, unless the source has a plain setting above |
| `ConfigMerge.PathsDetermineValue` | framework/config/load.go:175-194 | What stands at the paths determines the settings, so nothing else can be in the merge |
| `ConfigMerge.MergeWithItself` | framework/config/load.go:177-194 | Merging a layer with itself changes nothing |
| `ConfigMerge.EmptyTableIsNeutral` | framework/config/load.go:177-194 | An empty layer changes nothing on either side |
| `ConfigMerge.AbsorbsIffCovers` | framework/config/load.go:177-194 | Merging over a base changes nothing if and only if the base is covered |
| `ConfigMerge.MergeCovers` | framework/config/load.go:177-194 | A merge covers its base |
| `ConfigMerge.MergeAgainChangesNothing` | framework/config/load.go:167-168 | Merging the result over the same base again changes nothing |
| `ConfigMerge.AssociativeIffAligned` | framework/config/load.go:177-194 | Three layers may be merged in either grouping if and only if, wherever the outer two have tables and the middle one a plain setting, the last covers the first |
| `ConfigMerge.GroupingMatters` | framework/config/load.go:177-194 | A table, a plain setting and a table at one path: the grouping decides what shows |
| `ConfigMerge.MergeConfigMaps` | framework/config/load.go:177-194 | The loops over a fresh map, in any order of the keys, compute the merge and terminate |
| `Slashes.StripUndoesAdd` | component/util/util.go:165-206 | StripSlashes undoes AddSlashes on every string |
| `Slashes.AddUndoesStripIffEscaped` | component/util/util.go:165-206 | AddSlashes undoes StripSlashes if and only if the string is escaped |
| `Slashes.AddIsInjective` | component/util/util.go:166-178 | Different strings stay different |
| `Slashes.AddedByCharacter` | component/util/util.go:166-178 | Escaping goes character by character: a quote or a backslash gets a backslash before it, any other character stays |
| `Slashes.QuotesAreEscaped` | component/util/util.go:165-178 | After AddSlashes an odd number of backslashes stands before every quote and an even number at the end |
| `Slashes.StrippedIsUnpaired` | component/util/util.go:181-206 | Unescaping drops, on every string, exactly the backslashes that an even number of backslashes stands before |
| `Slashes.AddSlashes` | component/util/util.go:166-178 | The loop computes the escaped string |
| `Slashes.StripSlashes` | component/util/util.go:181-206 | The loop with its skip flag computes the unescaped string |

## Left out

- IocContainer.Container.Get: one goroutine at a time; `getForLifecycle` does not look at the mark, so a Start
  racing with gets can construct a singleton twice, which this model does not contain.
- Ioc.Serve: a provider issues a fixed list of requests; what it returns may depend on their answers, which
  beans it asks for may not.
- IocContainer.Container.Register: the two registries, by type and by name, are one map with tagged keys. What
  reflection makes of a type parameter, a key or ErrInvalidType, is an input.
- IocContainer.Container.RunMarked: the provider returns. Providers that panic are modelled on values, in
  IocPanic; a panic in OnInit or OnDestroy is not modelled.
- Ioc.SingletonRunsAtMostOnce: assumes a provider that never returns a nil interface; no registration function of
  the package makes another, so `Ioc.FilledSingletonsRunAtMostOnce` does without.
- SensitiveText.MaskedIsClean: states that a neutral mask is enough. For masks that are white space
  `SensitiveText.SpaceMaskDeletes` gives the exact condition, for masks that are words
  `SensitiveText.MaskWordIsNeverClean`; a mask that only occurs inside a longer word can leave a word or not,
  depending on the text.
- SensitiveFilter.Filter.MatchEnd: runes are characters; invalid UTF-8 in a text and mask values that are no
  runes are not modelled. White space is the list of `unicode.IsSpace`.
- Forest.FillTree: called where `fill` ends on every root, since the source recurses without end elsewhere
  (`ListingPaths.RootsEndIffNothingLeadsBack`). The versions for string ids are the same code and are not repeated.
- ForestModel.FlattenedExactly: unique ids. With repeated ids the forest is described by `Forest.IsBuilt` alone.
- Snowflake.Generator.NextID: the clock is a finite list of readings; a spin loop that sees no later reading in
  it yields the outcome Waiting and issues nothing.
- TokenBucket.Limiter.AllowN: Lua numbers are reals, without rounding; the script and the expiry see one clock.
- LeaseLock.Acquire: tokens are assumed to be fresh, as 16 random bytes are; how the client library rounds a
  lease below a millisecond for SET NX is not part of this model.
- LeaseLock.AcquireWithin: the caller and the server read one clock.
- CircuitBreaker.OpensExactlyAtMinRequests: the failure rate is compared over the reals.
- TaskQueue.Queue.DispatchDue: states what a pass does when nothing is submitted during it; submissions in the
  middle of a pass are in the runs of TaskQueue.RunKeepsInv. One scheduling loop is assumed.
- RedisConsumer.Queue.Consume: one consumer left alone; several consumers, crashes and submitters between any
  two steps are in the runs of RedisQueue.
- RedisConsumer.Queue.RequeueDeadLetter: its three Redis commands are one step; two overlapping calls on one
  letter can put it back twice.
- RedisQueue.RunsAreBounded: old entries stored without an envelope, JSON and dead-letter hooks are not
  modelled; a Redis error that ends a consumer is the event Lose.
- AuditQueue.Queue.WriteBatch: the sink is taken to copy what it keeps, because the source reuses the buffer it
  passes.
- AlertWatcher.Watcher.Evaluate: indicator values are reals, without NaN; message texts are left out.
- ConfigMerge.MergeConfigMaps: settings are values, so that sharing of nested maps between the result and its
  inputs is not visible; the source changes neither input.
- Slashes.StripSlashes: invalid UTF-8, which the source replaces, is not modelled.
- Context cancellation, network errors and nil receivers, which only return early.
- Reset, HasBean and the other getters, counters and formatting functions: easy and without state of their own.
- The code over Iris, GORM, MongoDB, Kafka, MQTT, Elasticsearch, InfluxDB, object storage, mail and SMS: it calls
  libraries that are not part of this model.
- The reconnect loop of framework/mq and the ordering of framework/audit/redis_sink.go, whose code and
  documentation disagree without a property that would hold instead.
- Struct copying by reflection, regular expressions, templates, signing, JWT and RSA, whose meaning lies in the
  Go libraries.
