# Models of the kernel engines, caches, protocols and parsers

Each module here models one component of the system and proves what that component is for. Components that
change objects, arrays or global variables are written as classes and methods; their contracts say that they
compute a step function, and the lemmas prove what holds of those functions over all inputs and all runs.

| file | component | central results |
|---|---|---|
| DependencyGraph.dfy | topological sort of the plugin master | raises if and only if the registered graph has a cycle; otherwise a permutation, dependencies first, and else in the listed order |
| PluginLifecycle.dfy, PluginProgram.dfy | plugin lifecycle | on_load attempts follow dependencies whatever hooks return; enable_all then disable_all are reverses |
| PluginTraces.dfy | the trace of every run of the lifecycle | in which state each hook is called and what follows its outcome; which plugins end enabled |
| DirectLoad.dfy, LoadTraces.dfy | load of a single plugin | ends if and only if the plugin cannot run in circles along pending dependencies; which plugins it touches and in which order |
| KaiCacheModel.dfy, KaiCache.dfy | hash + LRU + TTL cache | cached exactly when put and not dropped since, with the exact reasons for a drop; hits exactly characterised by the log of operations |
| KaiCacheReplies.dfy | what that cache tells its callers | replies and statistics of every run; gets under any clock |
| KaiCacheCapacity.dfy | the insert counter as the gate of that cache | the cache stays within its maximum if and only if the counter is at least the number of entries; it evicts with room left for every maximum but 1 |
| DnsCacheModel.dfy, DnsCache.dfy | DNS cache | contents are the front of an unbounded recency list; lookups exactly characterised |
| LinkedTable.dfy | the double linking both caches use | hash chains and LRU list hold the same entries |
| Djb2.dfy | the hash of the gateway and of the key-value cache | a polynomial, reduced once; it tells texts apart that differ in one character |
| Common.dfy, Keys.dfy | sequence facts, and as many distinct keys as a cache can tell apart | |
| LsmCache.dfy | append-only decision cache | answers with the last write if and only if no older write of the hash outlives it; runs of overlapping inserts where one does |
| GatewayCache.dfy | ring cache of the gateway | no two live entries of one key; lookups exactly characterised |
| Quant.dfy | INT8 and INT4 quantisation, quantised matrix product | round-trip error, exact 32-bit limit, error bound of the product |
| Chunked.dfy, ChunkedBodies.dfy | HTTP chunked decoder (section 7.1 of RFC 9112) | decodes every chunked encoding, cut to the buffer; what it does on every other body |
| JsonText.dfy, JsonReader.dfy | JSON string writer and reader (section 7 of RFC 8259) | round trip if and only if the text is plain; the writer stays in its buffer if and only if no escape of six comes up with five bytes left; the reader stays in its text if and only if no backslash at the end escapes what is not there |
| ModelCrypto.dfy | stream-cipher fallback and file header | every byte of an encryption; decryption succeeds exactly on encryptions |
| Netlink.dfy, NetlinkReplies.dfy | pending decision requests | every request settles once; no id is given twice, though requests are linked in any order; exactly by how much the counter is off, and how often each callback runs |
| Breaker.dfy | circuit breaker | admits, opens, reopens and closes exactly as configured; the shipped configuration cannot recover on its own calls |
| SyscallModel.dfy, Syscall.dfy | inference system call under interleaving | admission bound, balanced releases, no use of an unregistered engine, no deadlock |
| SwapPredict.dfy | page-heat prediction | the most recent pages, with their scores in numbers, sorted and banded |
| Session.dfy | session trimming | incremental trimming equals batch trimming |

## Where the code and its description differ

- The breaker is said to recover after its half-open trials, and the code logs it
  (kai/resilience/kai_resilience.c:108-112). `circuit_breaker_init` asks for 3 successes but admits 2 calls per
  half-open episode (kai/resilience/kai_resilience.c:32-34), so a breaker that has opened never closes on the
  successes of its own calls, and its trials run out for good: `Breaker.NeverRecovers`,
  `Breaker.ConfiguredNeverRecovers`. `Breaker.CanRecover` gives the condition under which it does.
- `pending_count` is meant to be the length of the pending list. A send that fails withdraws its request and leaves
  its timer armed (layer2/src/ai_layer2_netlink.c:282, layer2/src/ai_layer2_netlink.c:303-309), and both that path and
  the timer decrement without a look at the list. So the counter is the length of the list less the sends that failed
  after their request was settled and less the timers that fired after theirs was: `Netlink.CountExactly`. Once all is
  over it is 0 if and only if no send failed and no answered request had its timer fire as well
  (`Netlink.CountWhenOver`). From every reachable state that accepts requests, each of four orders of steps costs the
  counter one: `Netlink.FailedSendCosts` (every failed send whose timer then fires), `Netlink.LateFailureCosts`,
  `Netlink.RacedAnswerCosts`, `Netlink.EarlyAnswerCosts`. After n of them the list can hold n more than its limit, for
  every n (`Netlink.ListOverfills`).
- For the same reason the callback of a request whose call returned an error still runs, for its timer, and that of an
  answered request can run twice: `Netlink.RequestsSettled`, `Netlink.CallbacksWhenOver`.
- The insert counter of the key-value cache gates its capacity (kai/cache/kai_cache.c:206) but also counts updates
  (kai/cache/kai_cache.c:186), and a reset of the statistics clears it. The cache stays within its maximum, over all
  runs that do not reset the statistics, if and only if the counter is at least the number of entries:
  `KaiCacheCapacity.CapacityExactly`. So a reset lets it overfill if and only if it was not empty
  (`KaiCacheCapacity.ResetOverfillsExactly`; `KaiCacheCapacity.ResetOverfills` is the smallest run). With updates
  counted it also evicts with room left: from every state, for every maximum but 1
  (`KaiCacheCapacity.EvictsEarlyExactly`; `KaiCacheCapacity.UpdateEvictsEarly` is the smallest run).
- For the same reason every cache can be brought to where a put evicts from an empty list
  (`KaiCacheCapacity.EveryCacheMeetsEmptyList`, `KaiCacheCapacity.EvictionMeetsEmptyList`). The test of the program
  (kai/cache/kai_cache.c:207-208) does not recognise an empty list, since `list_last_entry` never yields NULL. The
  model reads it as the test for an empty list that it is meant to be.
- `json_escape` checks for more than four bytes left, but a `\u` escape takes six and a NUL
  (layer2/src/ai_layer2_gateway.c:170-186). With five bytes left the count of the rest wraps and the writer runs past
  its buffer; with six left it stays inside, and the escape is cut short. `JsonText.InBoundsExactly` and
  `JsonText.WholeExactly` say exactly when neither happens, `JsonText.EveryBufferFails` gives texts for every buffer.
- The decision cache of the security module reads the clock before it takes the lock (kai/core/kai_mem_opt.c:231,
  kai/core/kai_mem_opt.c:233), so two inserts that overlap can be linked in the other order, and the older decision
  answers after the newer has expired: `LsmCache.OverlapAnswersOld`. The exact condition for the last write to answer
  is `LsmCache.LastWriteExactly`.
- `load` of one plugin has no test for a cycle (plugins/plugin_master.py:528-538); `DirectLoad.LoadEndsExactly` says
  exactly when its recursion ends. A pending plugin that depends on itself is the smallest case in which it does not
  (`DirectLoad.SelfDependencyNeverEnds`).
- The DNS cache evicts the least recently added or found host; refreshing an address does not count as use. A
  refreshed tail is evicted next in every full cache (`DnsCacheModel.RefreshedIsEvicted`), and every cache of two
  entries or more can be brought there (`DnsCacheModel.RefreshDoesNotProtect`).
- Decisions cached by the gateway are found again under any domain (`GatewayCache.DomainIsIgnored`, after any run and
  for any features); `GatewayCache.DomainExactly` says when an answer was made for the domain that was asked for.
- The system call can refuse a call while none is admitted, whatever the limit (`SyscallModel.RefusedThoughIdle`).
- The JSON reader does not know the `\u` escapes of the JSON writer; `JsonText.RoundTripExactly` says exactly which
  texts come back.
- When a backslash has the end of the text behind it, the JSON reader takes that end for the escaped character and
  goes on past it (layer2/mcp/ai_mcp_core.c:51-61). `JsonText.GoesPastExactly` says exactly when: the last character
  is a backslash with an even number of others before it, every quote has an odd number of them before it, and the
  buffer has room for what stands before. `JsonText.TrailingBackslashFails` gives such a text of every length.
- The chunked decoder takes the number of a size line as it is (layer2/src/ai_layer2_gateway.c:765-774); a size that
  is negative as an int, or runs past what was received, takes it outside the received bytes (`Chunked.BadSizeFails`,
  `Chunked.BadSizes`).

## Model

| member | source | states |
|---|---|---|
| DependencyGraph.TopoOrderCorrect | plugins/plugin_master.py:503-524 | for every graph the sort raises if and only if the registered names have a dependency cycle; otherwise it lists each registered name exactly once with all registered dependencies strictly earlier |
| DependencyGraph.DfsCorrect | plugins/plugin_master.py:509-520 | from any recursion stack that is a path, a call raises only if there is a cycle, and otherwise extends the order by a dependency-closed, duplicate-free part containing the name |
| DependencyGraph.DfsAllCorrect | plugins/plugin_master.py:515-517 | the same for the loop over the dependencies of the name on top of the stack |
| DependencyGraph.TopologicalIsAcyclic | plugins/plugin_master.py:503-504 | a graph that has any dependencies-first order has no cycle |
| DependencyGraph.PathGoesDown | plugins/plugin_master.py:503-504 | along every dependency path the position in a dependencies-first order strictly decreases |
| DependencyGraph.RegistrationOrderKept | plugins/plugin_master.py:522-523 | plugins registered after their dependencies come in the order in which they were registered |
| DependencyGraph.DependencyOrderKept | plugins/plugin_master.py:515-520 | dependencies listed after their own come in the order in which they are listed, and then the plugin |
| DependencyGraph.TopoSorter.Visit | plugins/plugin_master.py:509-520 | the nested function on its captured sets and list computes the depth-first step, terminates, and restores the set of names in progress |
| DependencyGraph.ComputeTopoOrder | plugins/plugin_master.py:503-524 | the whole sort over mutable state: None if and only if cyclic, else a topological order |
| PluginLifecycle.EnableAllOrdered | plugins/plugin_master.py:528-590 | whatever the hooks return, enable_all raises exactly on a cycle and before any hook runs; otherwise every on_load attempt follows an attempt for each registered dependency that was not up before, and every plugin was up or is attempted |
| PluginLifecycle.LoadOrdered | plugins/plugin_master.py:528-538 | on an acyclic graph the recursive load keeps the order of attempts and ends with the plugin up or attempted, for any hooks |
| PluginLifecycle.LoadDependenciesOrdered | plugins/plugin_master.py:533-536 | loading the registered or unloaded dependencies first keeps the order of attempts |
| PluginLifecycle.PluginLoadOrdered | plugins/plugin_master.py:149-158 | one plugin load keeps the order if its dependencies are up or attempted |
| PluginLifecycle.PluginEnableOrdered | plugins/plugin_master.py:160-171 | so does one plugin enable, which may load again |
| PluginLifecycle.EnablerOrdered | plugins/plugin_master.py:540-547 | enabling the next name of a topological order covers one name more |
| PluginLifecycle.BringUpOne | plugins/plugin_master.py:149-171 | with succeeding hooks, load and enable of a registered plugin make exactly the transitions to loaded and to enabled |
| PluginLifecycle.EnablerAdvances | plugins/plugin_master.py:540-547 | with succeeding hooks and all earlier names enabled, enabling the next one loads no other plugin |
| PluginLifecycle.EnableAllSucceeds | plugins/plugin_master.py:585-590 | from registered plugins, after any history, the transitions to enabled that enable_all makes are, in order, the topological order |
| PluginLifecycle.DisableAllSucceeds | plugins/plugin_master.py:599-604 | from any states and after any history, if no on_disable raises, disable_all makes the transitions to disabled in exactly the reverse of that order and leaves every plugin disabled |
| PluginLifecycle.EnableThenDisable | plugins/plugin_master.py:585-604 | from registered plugins on an acyclic graph, after any history, disable_all run on what enable_all left reverses the dependency order in which they were enabled, and all end up disabled |
| PluginTraces.EnableAllLawful | plugins/plugin_master.py:149-171 | whatever the hooks return, in every run of enable_all: on_load is only called for a plugin that is not loaded, enabled or running, and on_enable only for a loaded one; a truthy call is directly followed by the change to loaded or enabled, a raising one by the change to error, a falsy one by none; there is no other change |
| PluginTraces.DisableAllLawful | plugins/plugin_master.py:186-199 | in every run of disable_all on_stop and on_disable are directly followed by their change unless they raise, and by none then; on_disable is called for a running plugin only directly after on_stop |
| PluginTraces.LoadLawful | plugins/plugin_master.py:528-538 | the same as for enable_all in every load of one plugin, with calls of on_load alone |
| PluginTraces.EnabledExactly | plugins/plugin_master.py:585-590 | after enable_all a plugin that was registered ends enabled if and only if its last on_load and its last on_enable both returned truthy |
| PluginTraces.PluginLoadCalls | plugins/plugin_master.py:149-153 | load calls on_load exactly for a plugin that is not loaded, enabled or running |
| PluginTraces.PluginEnableCalls | plugins/plugin_master.py:160-167 | enable calls on_load again exactly for a registered plugin, and then on_enable exactly if the plugin is loaded |
| PluginTraces.PluginDisableCalls | plugins/plugin_master.py:193-196 | disable calls on_stop exactly for a running plugin, and then on_disable |
| PluginProgram.PluginMaster.Register | plugins/plugin_master.py:471-479 | refuses a taken name and changes nothing; otherwise adds the plugin last, registered, with one event |
| PluginProgram.PluginMaster.LoadPlugin | plugins/plugin_master.py:149-158 | updates the state and trace of the plugin object as the load step says, for every hook outcome |
| PluginProgram.PluginMaster.EnablePlugin | plugins/plugin_master.py:160-171 | the same for enable |
| PluginProgram.PluginMaster.StopPlugin | plugins/plugin_master.py:186-191 | the same for stop |
| PluginProgram.PluginMaster.DisablePlugin | plugins/plugin_master.py:193-199 | the same for disable, which stops a running plugin first |
| PluginProgram.PluginMaster.LoadByName | plugins/plugin_master.py:528-538 | the recursion over plugin objects terminates and equals the recursive load step, wherever a rank falls along pending dependencies |
| PluginProgram.PluginMaster.LoadDirectly | plugins/plugin_master.py:528-538 | on every graph, cyclic or not, a load that cannot run in circles ends in the world of the recursion |
| DirectLoad.LoadEndsExactly | plugins/plugin_master.py:528-538 | whatever the hooks return, the recursion of load ends at some depth if and only if the plugin cannot run in circles along registered or unloaded dependencies |
| DirectLoad.Deeper | plugins/plugin_master.py:528-538 | and it ends in the same world at every greater depth |
| DirectLoad.DeepEnough | plugins/plugin_master.py:528-538 | where ranks fall along pending dependencies, it ends within the rank of the plugin, in the world of the load step |
| DirectLoad.NoCircleIsRanked | plugins/plugin_master.py:533-536 | without a circle to run into there is such a rank |
| DirectLoad.TrapHolds | plugins/plugin_master.py:533-536 | no load that ends loads a name of a set whose names wait for each other |
| DirectLoad.SelfDependencyNeverEnds | plugins/plugin_master.py:528-538 | a pending plugin that depends on itself is never loaded at any depth, whatever the hooks return |
| LoadTraces.LoadExactly | plugins/plugin_master.py:528-538 | whatever the hooks return, a load calls on_load of its plugin unless that is up; each on_load comes after one for every registered dependency that was registered or unloaded before; no plugin is touched that is not reached along these |
| LoadTraces.LoadAsListed | plugins/plugin_master.py:533-537 | dependencies with none of their own to wait for are loaded in the order in which they are listed, and then the plugin |
| PluginProgram.PluginMaster.EnableEveryPlugin | plugins/plugin_master.py:585-590 | raises if and only if the registered graph is cyclic, then changing nothing; else reaches the state of enable_all |
| PluginProgram.PluginMaster.DisableEveryPlugin | plugins/plugin_master.py:599-604 | the same for disable_all |
| KaiCacheModel.HitExactly | kai/cache/kai_cache.c:267-321 | under a monotone clock, after any run on keys stored in full a get hits if and only if the key was put and not dropped since and was last touched no longer ago than the time to live of its latest successful put; to a buffer of n bytes it copies the first n bytes of that put, or all if they are fewer, and reports its full size; without a buffer it copies nothing |
| KaiCacheModel.CachedExactly | kai/cache/kai_cache.c:155-490 | after any run on keys stored in full a key is cached if and only if it was successfully put and no operation since dropped it |
| KaiCacheModel.EntriesAreLatest | kai/cache/kai_cache.c:155-264 | after any run every entry holds the data and time to live of the latest successful put of its key, and the time of its last put or hit |
| KaiCacheModel.RunKeysDistinct | kai/cache/kai_cache.c:155-490 | no run ever leaves two entries with one key |
| KaiCacheModel.StepDropsExactly | kai/cache/kai_cache.c:206-217 | a key leaves the cache exactly for one of the listed reasons: eviction of the tail by a put of a new key while the gate is closed, removal, flush, or expiry in a sweep |
| KaiCacheModel.RunRecentFirst | kai/cache/kai_cache.c:179-264 | under a monotone clock the LRU list is always ordered by last access |
| KaiCacheModel.EvictionDropsLeastRecentlyTouched | kai/cache/kai_cache.c:206-217 | an evicted entry was put or hit no later than every other entry, as read off the operations |
| KaiCacheModel.FlagIsRedundant | kai/cache/kai_cache.c:291-300 | under a monotone clock the flag of an expired get is cleared only when the age already tells, now and later |
| KaiCacheReplies.GetExactly | kai/cache/kai_cache.c:267-306 | under any clock a get hits if and only if the key is cached, was not found expired by a get since its latest put, was touched at no later time than now, and that no longer ago than its time to live |
| KaiCacheReplies.PutReplyExactly | kai/cache/kai_cache.c:155-264 | a put of nothing is invalid; it lacks memory if its data cannot be copied or, for a key that is not cached, its entry cannot be made; else it succeeds |
| KaiCacheReplies.RemoveReplyExactly | kai/cache/kai_cache.c:371-411 | a removal succeeds if and only if the key was cached |
| KaiCacheReplies.FlushReplyExactly | kai/cache/kai_cache.c:413-449 | a flush reports how many keys were cached, and leaves none |
| KaiCacheReplies.SweepReplyExactly | kai/cache/kai_cache.c:451-490 | a sweep reports how many keys it dropped |
| KaiCacheReplies.StatsAgree | kai/cache/kai_cache.c:186-262 | after any run the statistics are the hits, misses, evictions and expirations since the last reset, and the puts less removals and the bytes put anew since the last reset or flush |
| KaiCacheReplies.EntryAges | kai/cache/kai_cache.c:245-307 | every entry knows when its key came into the cache and how often it was hit since, which an update does not change |
| KaiCacheCapacity.CountInvariant | kai/cache/kai_cache.c:186-206 | at all times the entries number at most the insert counter plus those present at the last statistics reset |
| KaiCacheCapacity.CapacityExactly | kai/cache/kai_cache.c:206-206 | from any state within the maximum, the entries never exceed it in runs without a reset of the statistics if and only if the insert counter is at least their number |
| KaiCacheCapacity.ResetOverfillsExactly | kai/cache/kai_cache.c:510-521 | so after a reset of the statistics the cache can overfill if and only if it is not empty |
| KaiCacheCapacity.CapacityBound | kai/cache/kai_cache.c:206-206 | over every run the entries number at most the maximum times one more than the statistics resets; with none, at most the maximum and at most the insert counter |
| KaiCacheCapacity.BoundAttained | kai/cache/kai_cache.c:206-206 | this bound is attained for every maximum and every number of resets, as far as distinct keys reach |
| KaiCacheCapacity.EveryCacheMeetsEmptyList | kai/cache/kai_cache.c:206-217 | from every state of every cache there is a run without a reset after which a put evicts while the list is empty |
| KaiCacheCapacity.EvictionMeetsEmptyList | kai/cache/kai_cache.c:206-217 | with no entry a put of a new key evicts if and only if the counter, as an unsigned number, is at least the maximum |
| KaiCacheCapacity.ResetOverfills | kai/cache/kai_cache.c:510-521 | one reset of the statistics lets a cache of maximum 1 hold two entries |
| KaiCacheCapacity.EvictsEarlyExactly | kai/cache/kai_cache.c:179-217 | from every state: a put evicts an entry only when the cache is full, in all runs without a reset of the statistics, if and only if the maximum is at most 1 |
| KaiCacheCapacity.UpdateEvictsEarly | kai/cache/kai_cache.c:179-190 | its smallest instance: after an update a half-empty cache of maximum 2 evicts for a new key |
| KaiCacheModel.SweepAll | kai/cache/kai_cache.c:451-490 | the walk that unlinks as it goes removes exactly the expired entries and keeps the order of the rest |
| KaiCache.ComputeKeyHash | kai/cache/kai_cache.h:125-131 | the loop computes that hash, with plain char signed or not |
| KaiCache.KeyHashIsPolynomial | kai/cache/kai_cache.h:125-131 | the key hash is the polynomial in 33 of the characters, those above 127 taken as negative where char is signed, modulo 2 to the 32 |
| KaiCache.TableSize | kai/cache/kai_cache.c:42-51 | a table has more buckets than the maximum, and at most twice as many |
| KaiCache.Cache.constructor | kai/cache/kai_cache.c:27-80 | an empty, correctly linked cache whose table has the next power of two buckets above the size; a maximum of 0 becomes the default, with one bucket |
| KaiCache.Cache.FindEntry | kai/cache/kai_cache.c:129-141 | the search of one bucket finds exactly what a linear search of all entries finds |
| KaiCache.Cache.PutEx | kai/cache/kai_cache.c:155-264 | on linked entry objects: the put step, all error returns included, keeping table and list in agreement |
| KaiCache.Cache.EvictOldest | kai/cache/kai_cache.c:206-217 | drops exactly the tail if the gate is closed and the list is not empty; the test for an empty list is read into the program |
| KaiCache.Cache.Get | kai/cache/kai_cache.c:267-321 | the get step in place: expiry marks the entry, a hit copies, counts and moves it to the front |
| KaiCache.Cache.Remove | kai/cache/kai_cache.c:371-411 | the remove step in place |
| KaiCache.Cache.Flush | kai/cache/kai_cache.c:413-449 | empties table and list and reports how many entries there were |
| KaiCache.Cache.FlushExpired | kai/cache/kai_cache.c:451-490 | removes exactly the expired entries from table and list and counts them |
| KaiCache.Cache.ResetStats | kai/cache/kai_cache.c:510-521 | clears every counter, the capacity gate included, and no entry |
| LinkedTable.UnlinkKeepsLinked | kai/cache/kai_cache.c:209-211 | unlinking an entry from its chain and the list keeps both holding the same entries, each once and in its own bucket |
| LinkedTable.LinkKeepsLinked | kai/cache/kai_cache.c:255-258 | so does adding a new entry at both heads |
| LinkedTable.TouchKeepsLinked | kai/cache/kai_cache.c:304-305 | so does moving an entry to the front of the list |
| DnsCacheModel.LookupExactly | kai/core/kai_net_opt.c:50-76 | after any run on hosts stored in full a lookup succeeds if and only if the host is among those to be remembered, as read off the operations and replies alone, and its latest successful insert is under five minutes old; it returns that address |
| DnsCacheModel.InsertReplyExactly | kai/core/kai_net_opt.c:81-130 | an insert fails if and only if there is no memory and the host is not among those remembered |
| DnsCacheModel.HoldsMostRecent | kai/core/kai_net_opt.c:81-130 | the cached hosts are always the most recently added or found ones since the last flush, in that order, and as many as the operations and replies tell: at least one short of the size if there are so many, and at most the size |
| DnsCacheModel.NothingForgottenBelowSize | kai/core/kai_net_opt.c:101-109 | while fewer hosts than the size were added or found since a flush, all are cached, in that order |
| DnsCacheModel.StepKeepsGood | kai/core/kai_net_opt.c:101-109 | every step keeps distinct hosts, a counter equal to their number and at most the size; so an eviction never meets an empty list |
| DnsCacheModel.EntriesAreLatest | kai/core/kai_net_opt.c:89-98 | every entry holds the address and expiry of the latest successful insert of its host |
| DnsCacheModel.RefreshedIsEvicted | kai/core/kai_net_opt.c:91-109 | in every full cache, refreshing the tail succeeds, and the next new host evicts the refreshed one and no other |
| DnsCacheModel.RefreshDoesNotProtect | kai/core/kai_net_opt.c:91-109 | for every size from 2 up, as far as distinct keys reach: fill the cache, refresh the host added first and add one more; the refreshed host is gone and every other is still there |
| DnsCache.Cache.FindEntry | kai/core/kai_net_opt.c:61-62 | a bucket search equals a linear search of all entries |
| DnsCache.Cache.Lookup | kai/core/kai_net_opt.c:50-76 | the lookup step on linked entry objects |
| DnsCache.Cache.Insert | kai/core/kai_net_opt.c:81-130 | the insert step: refresh in place, or evict, allocate and link, with the failed allocation |
| DnsCache.Cache.EvictOldest | kai/core/kai_net_opt.c:101-109 | a full cache loses exactly its tail |
| DnsCache.Cache.Flush | kai/core/kai_net_opt.c:134-150 | walking all buckets empties the list as well and brings the counter to zero |
| LsmCache.LastWriteExactly | kai/core/kai_mem_opt.c:200-239 | for every log and hash, at every time a lookup answers as the newest insert says if and only if no insert of the hash expires after the newest one |
| LsmCache.LookupIsLastWrite | kai/core/kai_mem_opt.c:200-239 | so if inserts were linked in the order of their clock readings, a lookup succeeds if and only if the newest insert for the hash is under 60 seconds old, and returns its decision |
| LsmCache.OneByOneIsOrdered | kai/core/kai_mem_opt.c:231-236 | in every run whose inserts do not overlap they are linked in that order |
| LsmCache.ChainFindsNewestLive | kai/core/kai_mem_opt.c:206-212 | for any clock, searching the one chain finds the newest unexpired insert of the hash among all inserts |
| LsmCache.OverlapAnswersOld | kai/core/kai_mem_opt.c:231-236 | runs under a monotone clock in which two overlapping inserts are linked in the other order and the older decision answers |
| LsmCache.Cache.MakeEntry | kai/core/kai_mem_opt.c:225-231 | the entry with the clock as read before the lock, or none without memory |
| LsmCache.Cache.LinkEntry | kai/core/kai_mem_opt.c:233-236 | adds one entry to the log and to its chain |
| LsmCache.Cache.Insert | kai/core/kai_mem_opt.c:221-239 | the two in turn for an insert that nothing interrupts |
| LsmCache.Cache.Lookup | kai/core/kai_mem_opt.c:200-216 | the chain walk returns the decision of the newest live insert |
| GatewayCache.LookupExactly | layer2/src/ai_layer2_gateway.c:327-352 | under a monotone clock a lookup finds exactly the latest cached decision of the key, if fewer than 4096 decisions were cached since and it has not expired |
| GatewayCache.AnswerExactly | layer2/src/ai_layer2_gateway.c:966-1022 | a request is answered by that decision, else by the API, else by the first layer |
| GatewayCache.LiveEntriesUnique | layer2/src/ai_layer2_gateway.c:327-338 | no two unexpired entries of the ring share a key |
| GatewayCache.RunHasNoLiveDuplicates | layer2/src/ai_layer2_gateway.c:979-1012 | of two decisions of one key within the ring the older expired before the newer was cached |
| GatewayCache.RunHoldsPuts | layer2/src/ai_layer2_gateway.c:340-352 | the ring holds exactly the last 4096 decisions, each in the slot of its number |
| GatewayCache.CountsBalance | layer2/src/ai_layer2_gateway.c:983-1021 | hits and misses add up to the requests, misses to API calls, and successes to cached decisions |
| GatewayCache.CountsExactly | layer2/src/ai_layer2_gateway.c:983-1021 | hits are exactly the requests for which a decision was in the ring and alive, misses and API calls the others, errors those of them that the API refused |
| GatewayCache.DomainExactly | layer2/src/ai_layer2_gateway.c:979-1022 | every answer is the own answer of some request with the same key, the one asked or an earlier one; it was made for the domain asked for unless the cached decision found is of another domain |
| GatewayCache.DomainIsIgnored | layer2/src/ai_layer2_gateway.c:980-989 | after any run, for any features: what the API answered to a request with these features answers the next one, whatever its domain, while it lives |
| GatewayCache.ComputeKey | layer2/src/ai_layer2_gateway.c:318-325 | the loop hashes the first 128 bytes in 64-bit arithmetic |
| GatewayCache.KeyIsPolynomial | layer2/src/ai_layer2_gateway.c:318-325 | the key is the polynomial in 33 of the first 128 bytes, modulo 2 to the 64 |
| GatewayCache.OneByteDiffers | layer2/src/ai_layer2_gateway.c:318-325 | features of one length that differ in exactly one of these bytes never share a key |
| Djb2.HashIsPolynomial | layer2/src/ai_layer2_gateway.c:318-325 | reducing after every step is the same as reducing the whole polynomial once |
| Djb2.OneDiffers | layer2/src/ai_layer2_gateway.c:318-325 | for every word size in which 33 has an inverse, texts that differ in one character have different hashes |
| GatewayCache.Gateway.CacheGet | layer2/src/ai_layer2_gateway.c:327-338 | the scan returns the first live entry of the key |
| GatewayCache.Gateway.CachePut | layer2/src/ai_layer2_gateway.c:340-352 | overwrites exactly the slot of the index |
| GatewayCache.Gateway.DoInference | layer2/src/ai_layer2_gateway.c:966-1022 | the whole request on the ring array and counters equals the request step |
| Quant.Int8RoundTrip | kai/core/kai_quant.h:65-76 | for every value, zero point and non-zero scale, quantising and dequantising misses by less than the scale if and only if the quotient plus the zero point lies strictly between -129 and 128 |
| Quant.AccurateUnlessSaturated | kai/core/kai_quant.h:67-69 | for a zero point in range this condition says that the value is not clamped |
| Quant.Int8Exactly | kai/core/kai_quant.h:65-71 | the value is the quotient rounded towards zero and moved by the zero point, or the end of the range on the side on which that lies outside; no other value is |
| Quant.Int4Exactly | kai/core/kai_quant.h:79-91 | the same for INT4, and unpacking gives it back |
| Quant.Int4OfByte | kai/core/kai_quant.h:87-91 | what unpacking makes of every byte |
| Quant.Int4Unpacks | kai/core/kai_quant.h:79-91 | the packed nibble unpacks, sign included, to the clamped quotient |
| Quant.Int4RoundTrip | kai/core/kai_quant.h:79-91 | the INT4 round trip misses by less than the scale if and only if the value was not clamped |
| Quant.SumsFit32BitsExactly | kai/core/kai_quant.h:101-104 | the running sums of all rows of length k fit 32 bits if and only if k is at most 131071 |
| Quant.ShortRowsFit | kai/core/kai_quant.h:101-104 | so for k up to 131071 every product of matrices is free of overflow |
| Quant.DotBound | kai/core/kai_quant.h:101-104 | the running sum after t products stays within 16384 times t |
| Quant.InnerProduct | kai/core/kai_quant.h:101-104 | the inner loop, on 32-bit integers, yields the dot product of row and column if no running sum leaves 32 bits |
| Quant.RescaleExactly | kai/core/kai_quant.h:105-105 | the value of a cell, times its scale, is never larger than the exact one, of the same sign, and less than one step off |
| Quant.MatMulInt8 | kai/core/kai_quant.h:94-108 | for matrices whose running sums fit 32 bits, the triple loop fills every 32-bit cell of the output with the rescaled dot product of its row and column, if this value fits |
| Quant.MatMulError | kai/core/kai_quant.h:94-108 | for in-range matrices with entries bounded by ma and mb, every output cell whose value fits 32 bits, times its scale, is within so + k(ma sb + mb sa) of the real product |
| Chunked.DecodeEncoded | layer2/src/ai_layer2_gateway.c:756-775 | for every chunked body of section 7.1 of RFC 9112 behind any header, extensions and any trailer included, decoding yields exactly the leading bytes of the contents that fit |
| Chunked.DecodeEncodedBody | layer2/src/ai_layer2_gateway.c:756-778 | so on such a receive buffer the loop leaves those bytes and a NUL in the body buffer |
| Chunked.RoundTrip | layer2/src/ai_layer2_gateway.c:756-775 | every list of non-empty strings, encoded behind any header and decoded, comes back concatenated and cut to the buffer, whatever bytes it holds |
| Chunked.DecodeOneChunk | layer2/src/ai_layer2_gateway.c:761-774 | one turn consumes exactly one chunk and copies what fits of it |
| Chunked.BadSizeFails | layer2/src/ai_layer2_gateway.c:765-774 | behind any header, a size line whose number is not zero and is negative as an int, or is more than what follows, leaves the decoding undefined |
| Chunked.BadSizes | layer2/src/ai_layer2_gateway.c:765-765 | such lines: a minus sign before any size below 2 to the 31, and any size from there up to 2 to the 32 |
| ChunkedBodies.DecodeExactly | layer2/src/ai_layer2_gateway.c:756-775 | decoding on every input: the data of any pieces, of whatever form the decoder takes them in, is copied as far as it fits, up to where decoding ends; it is undefined if and only if it fails there |
| ChunkedBodies.EveryBody | layer2/src/ai_layer2_gateway.c:756-775 | every text is made of such pieces and a rest at which decoding ends (a NUL before any CR, or a line with the number 0) or fails (neither follows, or a size is negative or too large) |
| ChunkedBodies.NumberExactly | layer2/src/ai_layer2_gateway.c:765-765 | a number is read behind white space, a sign and 0x or 0X, up to the first character that is no hex digit, and saturates at the ends of a 64-bit long |
| ChunkedBodies.NoNumber | layer2/src/ai_layer2_gateway.c:765-765 | a line without digits has the number 0 |
| ChunkedBodies.DigitsExactly | layer2/src/ai_layer2_gateway.c:765-765 | the sixteen digits in either case and their values |
| ChunkedBodies.HexPlaces | layer2/src/ai_layer2_gateway.c:765-765 | each digit counts sixteen times the one behind it |
| ChunkedBodies.IntExactly | layer2/src/ai_layer2_gateway.c:765-765 | a long becomes the int that equals it modulo 2 to the 32 |
| Chunked.StrtolOfSize | layer2/src/ai_layer2_gateway.c:765-765 | on a size with an extension behind it, the number read is the value of the hex digits |
| Chunked.ToHexValue | layer2/src/ai_layer2_gateway.c:765-765 | the hex digits of a number read back as that number |
| Chunked.TakeSizeLine | layer2/src/ai_layer2_gateway.c:761-766 | finds the line end, reads the size and damages only bytes already passed |
| Chunked.DecodeBody | layer2/src/ai_layer2_gateway.c:758-775 | the loop over the receive buffer leaves the decoded bytes and a NUL in the body buffer |
| JsonText.RoundTrip | layer2/src/ai_layer2_gateway.c:164-188 | for plain text and any two buffer sizes, quoting what json_escape kept and parsing it gives back exactly the leading characters that fit, and the whole text if and only if both buffers have the stated room |
| JsonText.RoundTripExactly | layer2/mcp/ai_mcp_core.c:42-69 | with room enough a text comes back if and only if it is printable ASCII, newline, carriage return and tab |
| JsonText.ParseEscapedText | layer2/mcp/ai_mcp_core.c:52-59 | any text is read back with each other character turned into a u and four digits |
| JsonText.InBoundsExactly | layer2/src/ai_layer2_gateway.c:170-187 | the writer stays inside its buffer if and only if no character with a six-byte escape comes up when exactly five bytes are left |
| JsonText.WholeExactly | layer2/src/ai_layer2_gateway.c:170-187 | it also never leaves a cut escape if and only if none comes up with five or with six bytes left |
| JsonText.EveryBufferFails | layer2/src/ai_layer2_gateway.c:182-184 | for every buffer and every byte outside ASCII, a text that runs past the end and one that leaves a cut escape |
| JsonText.PlainIsWhole | layer2/src/ai_layer2_gateway.c:170-187 | on plain text neither happens in any buffer |
| JsonText.RoomIsWhole | layer2/src/ai_layer2_gateway.c:170-187 | nor on any text with more than six bytes for each character, and then all of it is kept |
| JsonText.FittingExactly | layer2/src/ai_layer2_gateway.c:170-188 | how many characters json_escape starts: the least number whose escape leaves at most four bytes |
| JsonText.JsonEscape | layer2/src/ai_layer2_gateway.c:164-188 | whenever it stays inside, the buffer ends with the escape of the characters it started and a NUL, the last escape cut by one character only if six bytes were left for it |
| JsonText.GoesPastExactly | layer2/mcp/ai_mcp_core.c:48-65 | for every text and every buffer, the reader runs past its text if and only if the last character is a backslash with an even run of others before it, every quote has an odd run before it, and the characters before leave more than one place |
| JsonText.TrailingBackslashFails | layer2/mcp/ai_mcp_core.c:51-61 | such a text of every length; a quote or a second backslash before the last one keeps the reader inside |
| JsonReader.ReadExactly | layer2/mcp/ai_mcp_core.c:42-69 | on every text the reader takes characters and what stands behind backslashes, with n, r and t as line feed, carriage return and tab, up to a quote, the end, or the last place in the buffer; it goes past the text if and only if it comes to a single backslash at the end |
| JsonReader.EveryText | layer2/mcp/ai_mcp_core.c:42-69 | every text is of this form |
| JsonReader.EscapeExactly | layer2/src/ai_layer2_gateway.c:171-183 | the escape of every byte, with its two hex digits |
| JsonReader.StoredExactly | layer2/src/ai_layer2_gateway.c:182-182 | of an escape as long as the place left, all but the last character is stored |
| JsonText.JsonParseString | layer2/mcp/ai_mcp_core.c:42-69 | on every text it does not run past: rejects text without an opening quote and else leaves the parsed string and a NUL |
| ModelCrypto.RoundTrip | kai/security/model_crypto.py:291-310 | decrypt_bytes undoes encrypt_bytes for all data, keys and nonces, with any hash of 32 bytes; 36 bytes are added |
| ModelCrypto.EncryptBytesIs | kai/security/model_crypto.py:47-55 | every byte of encrypt_bytes: magic, version and nonce; the data, each byte xor that of the stream; and the front of the HMAC of nonce, ciphertext and the authenticated prefix with the version, under the hash of the key |
| ModelCrypto.StreamExists | kai/security/model_crypto.py:49-51 | there is such a stream of every length: the hash of key and nonce, then each block the hash of all before it and the nonce |
| ModelCrypto.DecryptBytesFails | kai/security/model_crypto.py:301-310 | decrypt_bytes finds no encrypted data if and only if the first six bytes are not the magic, and fails to authenticate if and only if they are but nothing was encrypted to this payload |
| ModelCrypto.DecryptBytesExactly | kai/security/model_crypto.py:301-310 | decrypt_bytes returns data if and only if the payload encrypts that data under some version and nonce |
| ModelCrypto.DecryptExactly | kai/security/model_crypto.py:47-66 | the cipher decrypts to a text if and only if its input is the encryption of that text |
| ModelCrypto.KeystreamExtends | kai/security/model_crypto.py:49-51 | a longer keystream extends a shorter one |
| ModelCrypto.HeaderSlices | kai/security/model_crypto.py:303-308 | slicing a payload gives back magic, version, nonce and ciphertext |
| ModelCrypto.AesGcmFallback.GrowStream | kai/security/model_crypto.py:49-51 | the loop terminates with the keystream |
| ModelCrypto.AesGcmFallback.EncryptData | kai/security/model_crypto.py:47-55 | computes the encryption and its tag |
| ModelCrypto.AesGcmFallback.DecryptData | kai/security/model_crypto.py:57-66 | checks the tag and computes the decryption |
| Netlink.RequestsSettled | layer2/src/ai_layer2_netlink.c:237-310 | in every run a request is in the list if and only if nothing has taken it off; an accepted one waits, was answered or timed out; its callback ran once for its answer, when that was delivered, and once for its timer, if that fired, also for a request that was withdrawn |
| Netlink.CallbacksCarryOwnId | layer2/src/ai_layer2_netlink.c:473-545 | a callback only runs with a decision carrying the id of its own request |
| Netlink.IdsFresh | layer2/src/ai_layer2_netlink.c:253-270 | in every run no request id is drawn twice, and so no two requests share one, in whatever order they are linked |
| Netlink.LinkedOutOfOrder | layer2/src/ai_layer2_netlink.c:253-279 | from every reachable state with room for two, a request with a later id can be linked first |
| Netlink.CountExactly | layer2/src/ai_layer2_netlink.c:273-310 | in every run the counter is the length of the list less the calls that failed after their request was settled and less the timers that fired after theirs was; so it is exact if and only if there are none of either |
| Netlink.CountWhenOver | layer2/src/ai_layer2_netlink.c:273-310 | once all calls returned and all timers fired or were stopped, the list is empty, and the counter is 0 if and only if no send failed and no answered request had its timer fire; every failed send has cost it at least one |
| Netlink.CallbacksWhenOver | layer2/src/ai_layer2_netlink.c:473-545 | by then the callback of every request has run once, that of a withdrawn one too, or twice if and only if it was answered and its timer fired |
| Netlink.FailedSendCosts | layer2/src/ai_layer2_netlink.c:282-309 | from every reachable state that accepts requests, a failed send and its timer leave the list as it was, the counter one lower, and the callback of the withdrawn request run |
| Netlink.LateFailureCosts | layer2/src/ai_layer2_netlink.c:303-309 | the same for a send that fails after the timer has fired |
| Netlink.RacedAnswerCosts | layer2/src/ai_layer2_netlink.c:487-494 | the same for a timer that fires between the unlinking by an answer and the cancelling; the callback runs twice |
| Netlink.EarlyAnswerCosts | layer2/src/ai_layer2_netlink.c:279-282 | the same for an answer that comes before the timer is armed |
| Netlink.ListOverfills | layer2/src/ai_layer2_netlink.c:271-279 | for every n there is a run after which the list holds up to 8192 and n requests, with a counter n lower |
| Netlink.ReachableInvariant | layer2/src/ai_layer2_netlink.c:237-545 | the invariant on list, counter, ids, timers and callbacks holds in every reachable state, with timers firing at any time after they were armed |
| NetlinkReplies.DrawExactly | layer2/src/ai_layer2_netlink.c:244-258 | in every reachable state a request is refused by a router switched off last, without a context or without memory, in this order, and only the last of these uses up an id |
| NetlinkReplies.LinkExactly | layer2/src/ai_layer2_netlink.c:269-279 | it is refused when the list is full, as far as the counter tells, and else put at the head |
| NetlinkReplies.FinishExactly | layer2/src/ai_layer2_netlink.c:284-310 | its call succeeds if and only if the message was sent, and then changes nothing more; else the request is off the list, and the counter is lowered in any case |
| NetlinkReplies.RespondExactly | layer2/src/ai_layer2_netlink.c:482-518 | a response finds a request if and only if one with its id waits, and takes that one off the list; else it changes nothing |
| NetlinkReplies.CallbackExactly | layer2/src/ai_layer2_netlink.c:493-545 | a response delivers its decision and stops the timer; a timer delivers one to keep |
| NetlinkReplies.StatsAgree | layer2/src/ai_layer2_netlink.c:273-541 | after every run the statistics count the requests handed to the socket, the responses, the overriding decisions delivered, the timers that fired and the requests refused for a full list |
| Netlink.Router.DrawRequest | layer2/src/ai_layer2_netlink.c:244-258 | the first part of the request call, outside the lock: the id and the allocation, with their refusals |
| Netlink.Router.LinkRequest | layer2/src/ai_layer2_netlink.c:269-279 | the locked part: refuses when 8192 are counted, else adds the entry at the head and counts it |
| Netlink.Router.ArmTimer | layer2/src/ai_layer2_netlink.c:281-282 | the timer of the request runs |
| Netlink.Router.FinishRequest | layer2/src/ai_layer2_netlink.c:284-310 | the rest of the call: sent, or withdrawn by an unconditional unlink that leaves the timer armed |
| Netlink.Router.TakeAnswered | layer2/src/ai_layer2_netlink.c:482-491 | the locked part of a response: unlinks the matching entry, or reports none |
| Netlink.Router.DeliverAnswer | layer2/src/ai_layer2_netlink.c:493-511 | the rest: stops the timer and delivers the decision |
| Netlink.Router.HandleResponse | layer2/src/ai_layer2_netlink.c:473-518 | the two in turn for a response that nothing interrupts |
| Netlink.Router.HandleTimeout | layer2/src/ai_layer2_netlink.c:521-545 | unlinks the entry of the timer without a look at the list and delivers the keep decision with its id |
| Breaker.CountersAgree | kai/resilience/kai_resilience.c:47-159 | over every run and in every state the counters are the failure streak, the calls admitted since the circuit was last half opened and the successes of the latest episode, and the time of the last change |
| Breaker.OpensExactly | kai/resilience/kai_resilience.c:134-141 | a closed circuit opens exactly at the failure that completes a streak of the threshold |
| Breaker.ReopensExactly | kai/resilience/kai_resilience.c:47-90 | an open circuit admits exactly a call more than the timeout after it opened, and that call makes it half open |
| Breaker.EpisodeExactly | kai/resilience/kai_resilience.c:47-150 | a half-open episode admits at most the configured number and one, ends at the first failure or at the last needed success |
| Breaker.AdmitsExactly | kai/resilience/kai_resilience.c:47-90 | in every reachable state: a closed circuit admits every call; an open one exactly when the timeout has passed or the clock has gone back; a half-open one exactly while no more than the configured number were admitted in the episode; a run starts closed |
| Breaker.ConfiguredExactly | kai/resilience/kai_resilience.c:23-44 | with the arguments of circuit_breaker_init, or 5 and 30000 for 0: the streak at which the circuit opens, the time after which it reopens, two trials and three successes |
| Breaker.NeverRecovers | kai/resilience/kai_resilience.c:104-113 | if an episode admits fewer calls than successes are needed, a circuit that opened never closes on the successes of its own calls |
| Breaker.CanRecover | kai/resilience/kai_resilience.c:104-113 | otherwise it can |
| Breaker.ConfiguredNeverRecovers | kai/resilience/kai_resilience.c:23-44 | the configuration set by the program is of the first kind, and after two trials it admits nothing more |
| Breaker.CircuitBreaker.AllowCall | kai/resilience/kai_resilience.c:47-90 | the allow step on the fields |
| Breaker.CircuitBreaker.ReportSuccess | kai/resilience/kai_resilience.c:93-122 | the success step on the fields |
| Breaker.CircuitBreaker.ReportFailure | kai/resilience/kai_resilience.c:125-158 | the failure step on the fields and the time of the last failure |
| Breaker.CircuitBreaker.Reset | kai/resilience/kai_resilience.c:161-174 | closes the circuit and clears its counters but not the time of the last change |
| SyscallModel.AdmittedBounded | kai/core/syscall/kai_syscall_core.c:122-138 | in every interleaving at most the limit of calls is admitted, and the counter is the number of admitted and rejecting calls |
| SyscallModel.RefusedExactly | kai/core/syscall/kai_syscall_core.c:122-131 | a call is refused by the count if and only if its arguments, capabilities and rate are accepted and as many calls as the limit are admitted or still rejecting |
| SyscallModel.RefusedThoughIdle | kai/core/syscall/kai_syscall_core.c:128-131 | for every limit there is a run after which a call is refused though none is admitted: as many as the limit enter, as many are refused, and those that entered leave |
| SyscallModel.OverReleasesOnce | kai/core/syscall/kai_syscall_core.c:249-261 | every exit has returned its permit, if it took one, and freed each buffer it allocated exactly once |
| SyscallModel.AllOverIsQuiet | kai/core/syscall/kai_syscall_core.c:249-261 | when all calls are over, the counter is zero, no buffer is live and the mutex is free |
| SyscallModel.UnregisteredNeverRuns | kai/core/syscall/kai_syscall_core.c:89-112 | after an unregister of e has returned, a thread runs e only if e was registered again after that unregister |
| SyscallModel.RunsOnlyRegistered | kai/core/syscall/kai_syscall_core.c:100-112 | a thread only ever runs the engine registered last and not unregistered since |
| SyscallModel.LastEngineExactly | kai/core/syscall/kai_syscall_core.c:74-97 | the engine pointer is e if and only if the last registration was of e and no unregister of e followed |
| SyscallModel.MutualExclusion | kai/core/syscall/kai_syscall_core.c:74-112 | at most one thread is inside the engine mutex |
| SyscallModel.RequestIdsDistinct | kai/core/syscall/kai_syscall_core.c:231-231 | no two calls get the same request id |
| SyscallModel.EveryIdIsGiven | kai/core/syscall/kai_syscall_core.c:231-231 | in every run the ids given are 2, 3 and so on, each to some call |
| SyscallModel.FinishTakesNext | kai/core/syscall/kai_syscall_core.c:231-231 | a call that is back from the engine is given the next one |
| SyscallModel.NoDeadlock | kai/core/syscall/kai_syscall_core.c:100-112 | while some call is not over, some call can step |
| SyscallModel.StepsRunOut | kai/core/syscall/kai_syscall_core.c:179-261 | every call ends within 13 steps of its own |
| SyscallModel.NextKeeps | kai/core/syscall/kai_syscall_core.c:74-261 | every step of every thread keeps the invariant on counter, buffers, mutex, engine and ids |
| SyscallModel.RunInvariant | kai/core/syscall/kai_syscall_core.c:74-261 | so it holds in every reachable state |
| SyscallModel.AloneReturnsOutcome | kai/core/syscall/kai_syscall_core.c:179-261 | the steps of one uninterrupted thread return the outcome that the order of the checks dictates and restore counter, buffers and mutex |
| SyscallModel.AloneInfers | kai/core/syscall/kai_syscall_core.c:100-112 | an uninterrupted kernel caller gets what the engine returns, or that there is none, and leaves everything as it was |
| SyscallModel.AloneChanges | kai/core/syscall/kai_syscall_core.c:74-97 | an uninterrupted registration makes its engine the engine, an unregistration removes it if it is that one; nothing else changes |
| Syscall.Kernel.CheckPerm | kai/core/syscall/kai_syscall_core.c:122-132 | counts exactly the calls that pass the capability and rate checks below the limit; refuses the others and counts nothing |
| Syscall.Kernel.CopyIn | kai/core/syscall/kai_syscall_core.c:153-163 | one new buffer, or the error of the allocation or of the copy and none |
| Syscall.Kernel.EngineUnregister | kai/core/syscall/kai_syscall_core.c:89-97 | e is no longer the engine; another engine stays |
| Syscall.Kernel.Infer | kai/core/syscall/kai_syscall_core.c:179-261 | the body with its cleanup labels returns that outcome and leaves counter, buffers and engine as they were on every path; exactly the calls that reach the engine take a request id |
| SwapPredict.PredictionPages | ai_core/src/ai_memory.c:107-160 | a prediction lists exactly the max_out most recently accessed distinct non-zero pages, or all if fewer, by falling score, each score the capped heat of its page, above 0 and at most 1 |
| SwapPredict.PredictionScores | ai_core/src/ai_memory.c:123-181 | in numbers: each score is at most 1 for the newest access of the page, 3.3 less 0.05 for each step back, 0.7 of that if it was a write, and as much for each older one as brings it up to 1; the process is that of the newest access; the action is decided by the place in the order |
| SwapPredict.ScoreOfOne | ai_core/src/ai_memory.c:146-157 | the score of a page accessed once; of two such pages that were read the one accessed later never scores lower |
| SwapPredict.RecencyBreaksTies | ai_core/src/ai_memory.c:162-171 | where the scores do not rise with the time since the last access, equal ones included, the pages stay in the order of that access |
| SwapPredict.EntryIsNewest | ai_core/src/ai_memory.c:144-157 | each entry of the table stands for the newest access of its page |
| SwapPredict.PredictionBands | ai_core/src/ai_memory.c:173-181 | swap_in is exactly the first third, swap_out exactly what lies behind two thirds; no page swapped out scores above one that is not, none swapped in below one that is not |
| SwapPredict.PagesByRecency | ai_core/src/ai_memory.c:123-160 | the listed pages are the non-zero ones accessed, each once, ordered by their last access |
| SwapPredict.TableHoldsMostRecent | ai_core/src/ai_memory.c:123-160 | the table holds the first max_out of them |
| SwapPredict.ScoreIsCappedHeat | ai_core/src/ai_memory.c:139-157 | a score is the capped sum of the weights of the accesses of its page, the newest with the write discount, although the code caps after each access |
| SwapPredict.ScoresStayInRange | ai_core/src/ai_memory.c:139-157 | every score is above 0 and at most 1, and the table never exceeds max_out |
| SwapPredict.PassSorts | ai_core/src/ai_memory.c:162-171 | one pass of the exchange sort permutes the table and brings the next largest score to the front |
| SwapPredict.SortedSorts | ai_core/src/ai_memory.c:162-171 | all passes sort the table by falling score, a permutation |
| SwapPredict.SortedKeeps | ai_core/src/ai_memory.c:162-171 | and leave a table whose scores never rise as it is |
| SwapPredict.Tracker.RecordAccess | ai_core/src/ai_memory.c:70-90 | the ring always holds the 64 newest records of the log, at the slots the reader computes |
| SwapPredict.Tracker.CollectTable | ai_core/src/ai_memory.c:123-160 | the nested loops fill the output array with the table |
| SwapPredict.ExchangeSort | ai_core/src/ai_memory.c:162-171 | runs these passes on the output array in place: sorted by falling score, a permutation, and nothing behind it touched |
| SwapPredict.AssignActions | ai_core/src/ai_memory.c:173-181 | bands the array in place |
| SwapPredict.Tracker.Predict | ai_core/src/ai_memory.c:107-186 | the whole call leaves a prediction for the last 64 accesses in the array and cleared entries behind it; nothing when disabled or without room |
| Session.IncrementalIsBatch | kai/features/session.py:92-113 | after any run of appends a session holds what one trim of its full history would leave |
| Session.KeepIsLongest | kai/features/session.py:104-113 | that is the longest suffix with at most max_messages messages and either at most max_tokens tokens or at most 2 messages |
| Session.KeptExactly | kai/features/session.py:104-113 | in numbers: what a trim leaves has at most max_messages messages, and at most max_tokens tokens or two messages, and with one message more it would not |
| Session.EstimateExactly | kai/features/session.py:56-63 | a text with c Chinese characters, wherever they stand, and n others is taken for c + n / 4 tokens |
| Session.TokensAdd | kai/features/session.py:109-113 | the tokens of two lists of messages add up |
| Session.RunKeepsHistory | kai/features/session.py:78-138 | with creation, clearing and deletion of any sessions in between, each session holds the longest fitting suffix of its own history |
| Session.TrimOnceMore | kai/features/session.py:104-113 | trimming before an append does not change what the next trim leaves |
| Session.SessionObject.Trim | kai/features/session.py:104-113 | the two popping loops compute that suffix and raise exactly for a negative limit |
| Session.SessionManager.AppendMessage | kai/features/session.py:92-102 | appends and trims one session and no other |

## Left out

- KaiCache.Cache.PutEx: keys of 64 bytes and more, which the program cuts off when it stores them (kai/cache/kai_cache.c:245) but not when it searches.
- DnsCache.Cache.Insert: host names of 256 bytes and more, cut off in the same way.
- KaiCache.Cache.constructor: the bucket of an insert is taken to be the bucket a lookup searches; failed allocations of the cache itself are left out.
- KaiCache.Cache.EvictOldest: the program tests the last entry for NULL, which is no test for an empty list; the model evicts nothing from an empty list (see above).
- KaiCache.Cache.Get: the callbacks on_evict and on_expire, here and in the other operations, are foreign code.
- KaiCache.Cache.FlushExpired: reads the clock once for the whole sweep, where the program reads it for each entry.
- Chunked.DecodeBody: only bodies on which the C code is defined; sizes that are negative, or run past the received bytes, are excluded; `ChunkedBodies.DecodeExactly` says which bodies these are.
- Chunked.TakeSizeLine: the same for one size line.
- JsonText.JsonEscape: texts that reach a six-byte escape with exactly five bytes left, which the program writes past its buffer, are excluded; `JsonText.InBoundsExactly` shows that these are all.
- JsonText.JsonParseString: texts on which the program reads past the end; `JsonText.GoesPastExactly` says which these are.
- Quant.MatMulInt8: matrices with a running sum outside 32 bits, on which the C code is undefined; a cell whose value does not fit 32 bits holds anything. Reals stand for floats, so rounding and NaN are not modelled, nor is FP16.
- PluginProgram.PluginMaster.LoadByName: a load that runs in circles, where the program recurses until the interpreter stops it; `DirectLoad.LoadEndsExactly` shows that these are all.
- DependencyGraph.ComputeTopoOrder: the interpreter's limit on the depth of recursion, at which a long chain of dependencies without a cycle makes the sort raise as well; the same holds for load.
- Netlink.Router.FinishRequest: every late step of a request whose entry was freed also touches that freed memory; the model keeps its effect on the list, the counter and the callback.
- Netlink.Router.HandleResponse: round-trip statistics are left out.
- Netlink.Router.HandleTimeout: the timeout handler is taken to be decision_timeout_work, though the code passes NULL (layer2/src/ai_layer2_netlink.c:267), and runs as one step. The clean-up at module exit is left out.
- SwapPredict.Tracker.Predict: scores are reals; max_out is the length of the array; numa_node is unused in the code.
- GatewayCache.Gateway.DoInference: one worker thread; the ring index is unbounded; prompts, reasons and latencies are left out.
- Syscall.Kernel.Infer: the body is one run without interruption; interleaving is in SyscallModel. User pointers, capabilities and the rate limiter are parameters that say with which error, if any, they refuse the call.
- Counters and clocks are unbounded integers unless a wrap matters to a branch (the age test, the insert counter).
- Arguments that are NULL, log messages and error texts.
- The event bus, and the start, unload, reload and watchdog parts of the plugin master: handlers are foreign code.
- kai_cache_get_copy, kai_cache_has and kai_cache_foreach, slab allocation for a fixed entry size, and the destructor: they add only easy members.
- The page prefetch history (kai/core/kai_mem_opt.c:51-117), the request queue of the gateway and the extraction of `params` in the message handler: lists and scans simpler than those here.
- The HTTP client around the chunked decoder, sockets, netlink messages, files, key generation and signatures.
- The AES-GCM library: only the fallback cipher is modelled, with SHA-256 and HMAC as unknown functions of fixed output length.
- Session persistence, listing and context windows.
- FP16 conversion, SIMD, result caching in kai_infer, role inheritance, load balancing and scheduling.
- Weak memory: atomic operations and locked regions are single steps.
