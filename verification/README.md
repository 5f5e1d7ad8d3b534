# Supp: verified model

Supp is a filtering DNS server with a built-in WireGuard peer service. This project models
the parts of it that carry state and proves what they guarantee over whole runs:

- **Reply cache** (`Lru`, `CacheRuns`, `ReplyCache`): an LRU with a fresh and a stale
  deadline per entry. The value model is a recency list; the class keeps the `items` map and
  the `order` list in step and is proved against it. Proved for every run: LRU inclusion
  between two cache sizes, retention, and agreement with an unbounded memo of the last put.
- **TTL clamping** (`Message`, `Ttl`): the in-place rewriting of record TTLs.
- **Request pipeline** (`Pipeline`, `ReplyLaws`, `RequestRuns`, `Server`): block, cache,
  upstream, uncloak, clamp, store. `Pipeline.Handle` is the pipeline on values; `Server.Handle` works on message
  objects in the heap, some of which are also held by the cache, and is proved to do the
  same. `ReplyLaws` says what the client gets and what is stored in terms of the upstream's
  message alone, and `RequestRuns` carries the results about cache runs over to requests.
- **Domain matcher** (`Names`, `Rules`, `DomainTrie`): the trie of nested maps stands for
  a set of label suffixes; insertion, lookup, size and enumeration are proved against it.
- **Blocklist refresh** (`Verdicts`, `Refresh`, `RefreshLaws`, `FilterEngine`): rebuilding the
  sets from downloads, cached copies and the old sets, exactly which rules that gives, what
  every run of refreshes keeps blocked, and exactly when a refresh unblocks no name.
- **WireGuard peers** (`WgAddress`, `WgKernel`, `WgPeers`, `WgRaces`, `WgService`): the
  least-free address search, the kernel diff, a step machine in which AddPeer calls and
  reconciliations interleave, runs of it in which the kernel goes wrong, and the service
  class, whose calls are runs of that machine without interruption.
- **Upstream pool** (`Upstreams`, `Pool`): the atomic steps of overlapping exchanges, the
  latency average, candidate order, failover and probing.
- **Metrics** (`Metrics`, `RunTotals`): conservation of the counts, the recent-query window,
  and the totals of a run of requests in terms of its replies.

Time, the network, the store, key generation and the kernel device enter as parameters or
as arbitrary outcomes. `dafny verify dfyconfig.toml` checks everything.

Where the code and what is said about it differ, the code is followed:

- README.md:112 says inline entries always win. An exception rule of a downloaded list
  unblocks an inline deny entry (`Refresh.DenyEntryCanLose`); exactly when a deny entry is in
  force is `Refresh.InlineEntries`.
- The header of internal/filter/matcher.go says an entry covers itself and its subdomains.
  Entries of four or more labels are cut to three and cover more (`Rules.TruncationExact`
  says exactly when no more).
- internal/filter/engine.go:203-206 says an outage never unblocks. What the code keeps:
  - The rules of a remote list's last good download stay in the blocked set, since its cached
    copy is loaded again, in every run in which no later body of it fails to parse
    (`Refresh.GoodInForce`, `Refresh.StaysBlocked`). A body that does not parse takes the
    place of the good one, on disk too, and the list's rules drop out
    (`Refresh.UnparsedBodyDrops`).
  - What a local list or the old set matched is kept by writing the old rules out and adding
    them again, which is faithful exactly for the rules of `Rules.RoundTripIff`. A rule can be
    lost that way (`Rules.BlankStartLost`, `Refresh.OutageUnblocks`) or come back as a whole
    top-level domain (`Rules.BlankLabelWidens`).
  - The verdict also depends on the allow rules, which are written out and added again too. An
    exception with empty labels comes back as a whole top-level domain and unblocks names that
    are still in the blocked set (`Refresh.OutageAllows`).
  - A refresh, of any kind, unblocks no name exactly under the condition of
    `Refresh.RefreshKeepsIff`; `Refresh.MissingKeepsIff` is that condition when it falls back
    on the old sets, and `Verdicts.RereadVerdictsIff` says it of the old sets alone.
- internal/wg/manager_linux.go:76 says the kernel is reconciled to exactly the desired set.
  Peers that exist are not sent again, so that holds exactly under the condition of
  `WgKernel.AgreesIff`; `WgKernel.ForeignAddressStays` is a table for which it does not.
  One service call after the other meets the condition (`WgService.Service.AddPeer` and its
  neighbours). The service lists the rows and applies the list without a lock around both:
  for calls that overlap `WgPeers.RunSafe` and `WgPeers.RunAgrees` say exactly when the kernel
  agrees, `WgRaces.DeletedPeerReturns` is a run in which a deleted peer comes back, and
  `WgRaces.CutShortLoses` one in which a peer stays without its address.
- internal/wg/conf.go:103 calls the server address the first host of the subnet. It is the
  address after the one the subnet is written with (`WgAddress.GatewayIsFirstHost`).
- internal/dns/pool.go:78-79 says the browser transport is used only when every upstream is
  unhealthy. It is used exactly when the tries of one query, at most three, all fail
  (`Pool.WhenQueriesFail`), also while others are healthy (`Pool.BrowserWhileHealthy`).
- internal/dns/metrics.go:23 speaks of a ring of 200. Past 200 queries the window holds
  between 101 and 200 of them (`Metrics.WindowStep`).
- internal/dns/cache.go:117 takes bounds that may be out of order: with a minimum above one
  day and no maximum as large, every lifetime is one day (`Ttl.WithinBounds`).
- Section 5 of RFC 2308 bounds a negative answer by the SOA record's TTL as well as by its
  MINIMUM field; the code reads the MINIMUM only, and so does the model.

## Model

| member | source | states |
|---|---|---|
| Lru.StepBounded | internal/dns/cache.go:56-107 | every get and put keeps the keys distinct and at most `size` of them |
| CacheRuns.Inclusion | internal/dns/cache.go:56-107 | in every run, a smaller cache driven by the same calls as a larger one keeps its recency order a subsequence of the larger one's with the same entries and no more free slots, so each of its hits is the same hit, message and freshness, in the larger one |
| CacheRuns.IncludedGet | internal/dns/cache.go:56-83 | one get keeps that relation even when only the larger cache reorders, and a hit in the small cache is the same hit in the large one |
| CacheRuns.IncludedPut | internal/dns/cache.go:86-107 | one put, with or without evictions, keeps that relation |
| CacheRuns.RunBounded | internal/dns/cache.go:86-107 | in every reachable state the keys are distinct and at most `size` |
| CacheRuns.RunAgrees | internal/dns/cache.go:86-107 | in every reachable state each entry is the one its key's last put stored, deadlines included |
| CacheRuns.GetReturnsLastPut | internal/dns/cache.go:56-83 | a get in any reachable state misses or returns the last put's message, fresh exactly when now is before its valid deadline, and never once the stale deadline has passed |
| CacheRuns.Retained | internal/dns/cache.go:86-107 | an entry stays resident while the keys touched ahead of it are fewer than `size` |
| CacheRuns.Retention | internal/dns/cache.go:56-107 | after any run, a key that is put or hit is still found until its stale deadline if fewer than `size` distinct other keys are put or hit in between |
| ReplyCache.ReplyCache.constructor | internal/dns/cache.go:33-43 | a new cache is empty and holds at least 1024 entries |
| ReplyCache.ReplyCache.Get | internal/dns/cache.go:56-83 | map and list stay in agreement; the new order, the freshness, the counters and a deep copy of the message are those of the recency-list model, and nothing in the cache is modified |
| ReplyCache.ReplyCache.Put | internal/dns/cache.go:86-107 | map and list stay in agreement and the new order is that of the model: same key dropped, then the oldest evicted if still full, new entry in front |
| ReplyCache.ContentsGet | internal/dns/cache.go:56-83 | a get on message objects reports and leaves what the same get on their contents does |
| ReplyCache.ContentsPut | internal/dns/cache.go:86-107 | a put on message objects leaves what the same put on their contents does |
| ReplyCache.ContentsKept | internal/dns/cache.go:71-75 | if no object of the cached messages changes, neither do the cache's contents |
| Message.Msg.Copy | internal/dns/cache.go:71-75 | the copy a get returns has the same contents and shares no object with the original |
| Ttl.ClampTtls | internal/dns/cache.go:117-157 | in place on the record objects: every record of the three sections that is not an OPT record gets the lifetime's whole seconds, truncated to 32 bits; the result is the clamped lifetime |
| Ttl.LeastLife | internal/dns/cache.go:124-131 | the loop finds the least positive answer TTL |
| Ttl.SoaLife | internal/dns/cache.go:134-139 | the loop finds the MINIMUM of the first SOA record of the authority section |
| Ttl.StampAll | internal/dns/cache.go:150-155 | sets the TTL of every record but the OPT records and changes nothing else |
| Ttl.LeastTtl | internal/dns/cache.go:124-131 | 0 when no TTL is positive, else a TTL of some record that no positive one is below |
| Ttl.WithinBounds | internal/dns/cache.go:117-149 | the lifetime lies between the adjusted bounds exactly when the bounds are in order |
| Ttl.LifetimeIs | internal/dns/cache.go:117-149 | the lifetime from the records: the least positive answer TTL, else the MINIMUM of the first SOA record if positive, else five minutes; within a minimum of 30 seconds and a maximum of a day where none, or none in order, is set |
| Ttl.NoOverflow | internal/dns/cache.go:144-150 | for upstream TTLs that fit the wire, the written TTL is the lifetime's whole seconds exactly when no minimum of 2^32 seconds or more is in force |
| Ttl.OnlyRaisedToMinimum | internal/dns/cache.go:124-155 | no positive answer TTL is raised above the minimum |
| Ttl.ClampTwice | internal/dns/cache.go:117-157 | clamping a clamped message again with the same bounds changes nothing |
| Pipeline.ReplyCases | internal/dns/server.go:261-326 | every reply has the request's ID; a blocked name reaches neither cache nor upstream; a stale reply is served only when the upstream was asked in the same call and failed; there is no reply exactly when there is no question or the upstream failed and nothing usable was cached |
| Pipeline.ProcessedClean | internal/dns/server.go:330-361 | a NOERROR reply to a name that is not blocked has, after uncloaking, no CNAME to a blocked name |
| Pipeline.HandleEntries | internal/dns/server.go:261-326 | a request puts into the cache only its own processed NOERROR or NXDOMAIN reply, under its own key |
| Pipeline.ReplySource | internal/dns/server.go:261-326 | a reply that is not a block response is a cached message of the request's key or the processed upstream reply |
| Pipeline.CleanStep | internal/dns/server.go:261-361 | one request keeps every cached message clean, and its reply is clean |
| Pipeline.RunClean | internal/dns/server.go:261-361 | while the filter does not change, no NOERROR reply of any run, fresh, stale or just resolved, other than a block response, contains a CNAME to a blocked name |
| Pipeline.KeyInjective | internal/dns/cache.go:45-52 | two requests share a cache key exactly when the name up to case, the type and the DNSSEC flag agree; the class plays no part |
| Pipeline.RunAnswers | internal/dns/server.go:261-326 | in every run each reply has the request's ID and answers a question of the same name, up to case, and type |
| Pipeline.RunSettled | internal/dns/server.go:318-324 | in every run each cached message already carries clamped TTLs |
| ReplyLaws.CheckedName | internal/dns/server.go:266-266 | the filter is asked about the queried name without its last dot, in lower case |
| ReplyLaws.BlockedReply | internal/dns/server.go:364-387 | a blocked name gets one address record with the configured address and TTL 60 for types 1 and 28, NXDOMAIN without records otherwise |
| ReplyLaws.AskedIff | internal/dns/server.go:268-290 | the upstream is asked exactly for names that are not blocked and have no fresh cached reply |
| ReplyLaws.PassedOn | internal/dns/server.go:311-361 | a message from upstream reaches the client with the same code and, in all three sections, the same records in the same order up to TTL, unless a CNAME of a NOERROR message leads to a blocked name: exactly then it is emptied |
| ReplyLaws.StoredAs | internal/dns/server.go:317-324 | exactly replies with code 0 or 3 are stored, as sent and under the request's key, and which lifetime they get |
| RequestRuns.HandleIsCacheRun | internal/dns/server.go:275-323 | what one request does to the cache is a run of at most a get and a put |
| RequestRuns.RunIsCacheRun | internal/dns/server.go:261-326 | the cache after any run of requests is the cache after the concatenated get and put calls, so the results about cache runs apply to it |
| RequestRuns.CachedIsLastStored | internal/dns/server.go:275-288 | after any run of requests, a reply served from the cache is the last one stored under its key with the request's ID, stale exactly when its lifetime is over and never past its stale deadline |
| RequestRuns.RequestsKeep | internal/dns/cache.go:56-107 | an entry outlives any run of requests that store nothing under its key and ask for fewer than `size` other keys |
| RequestRuns.StoredRepliesServed | internal/dns/server.go:275-323 | after any run, a stored reply answers every later request for its key, without asking upstream during its lifetime and as a stale reply after it while upstream fails, if fewer than `size` other keys are asked for in between |
| RequestRuns.RunFiltered | internal/dns/server.go:261-361 | with the engine's verdicts in a fixed state: a reply is a block response exactly when that state blocks the name, and every other NOERROR reply of a run has no CNAME to a name it blocks |
| RequestRuns.EmptyNotBlocked | internal/dns/server.go:346-348 | the empty name, which uncloaking never checks, is never blocked |
| Server.Server.constructor | internal/dns/cache.go:33-43 | a new server has an empty cache of at least 1024 entries, no queries asked and none recorded |
| Server.Server.BlockResponse | internal/dns/server.go:364-387 | the block reply: address record with TTL 60 for A and AAAA, NXDOMAIN otherwise, with the request's ID and question, in new objects |
| Server.Server.Uncloak | internal/dns/server.go:330-361 | the loop with its `seen` map empties a NOERROR reply exactly when some CNAME target other than the queried name is blocked |
| Server.Server.Process | internal/dns/server.go:311-322 | a new upstream reply is given the request's identity, uncloaked and clamped; NXDOMAIN replies live for the fail TTL when one is set |
| Server.Server.Resolve | internal/dns/server.go:299-326 | asks the upstream once, with ID 0 and no options, returns the processed reply and caches exactly NOERROR and NXDOMAIN |
| Server.Server.Lookup | internal/dns/server.go:276-276 | the copy from the cache has the cached contents and is disjoint from every cached message |
| Server.Server.Answer | internal/dns/server.go:281-295 | a processed upstream reply, else the stale copy under the request's ID, counted as stale, else nothing |
| Server.Server.Handle | internal/dns/server.go:261-296 | on heap objects: the reply, the two flags, the upstream log, the stale counter and the cache contents are those of `Pipeline.Handle`; the reply is made of new objects and no message already cached changes |
| Server.Server.ServeDns | internal/dns/server.go:232-258 | the same, and exactly one observation is recorded: neither blocked nor cached when there is no reply |
| Server.Server.TotalsAddUp | internal/dns/metrics.go:39-66 | in every reachable state the per-domain counts sum to the totals, and blocked plus cached replies never exceed the queries |
| Server.AskedQuery | internal/dns/server.go:300-307 | the upstream is asked for the client's type and class and, up to case, its name with one dot at the end, with ID 0 and no options |
| RunTotals.TotalsOfRun | internal/dns/server.go:232-258 | in every run of requests the blocked total is the number of requests for blocked names, the cached total the number of replies from the cache, and each request counts for its name |
| Names.TrimExact | internal/filter/matcher.go:20-20 | trimming removes all characters of the set at both ends and no others |
| Names.LowerIsCase | internal/filter/matcher.go:20-20 | names have the same lower-case form exactly when they agree letter by letter up to case; it has no capitals and changes nothing else |
| Names.SpacesAre | internal/filter/matcher.go:20-20 | the white space that is trimmed is tab to carriage return and the space |
| Names.SuffixText | internal/filter/matcher.go:72-72 | the labels of a name are the last labels of another exactly when its text is all of that one's or follows one of its dots |
| Names.JoinSplit | internal/filter/matcher.go:72-72 | joining the labels of a name gives the name back |
| Names.SplitJoin | internal/filter/matcher.go:144-160 | splitting a joined list of labels without dots gives the labels back |
| Rules.InRulesOf | internal/filter/matcher.go:67-107 | a rule is in the set of a list of entries exactly when some accepted entry gives it |
| Rules.SubdomainMatched | internal/filter/matcher.go:67-137 | every accepted entry matches itself and all its subdomains |
| Rules.AcceptedIff | internal/filter/matcher.go:67-76 | a trimmed entry is accepted exactly when it has a dot or is made of letters, digits and hyphens |
| Rules.MatchesText | internal/filter/matcher.go:67-137 | an accepted entry matches a name exactly when the text of the name, or what follows one of its dots, is up to case the entry's, or the entry's from its third dot from the right |
| Rules.CaseIgnored | internal/filter/matcher.go:67-137 | names that agree up to case are matched alike and give the same rule |
| Rules.TruncationExact | internal/filter/matcher.go:95-106 | an entry matches nothing but itself and its subdomains exactly when it has at most three labels |
| Rules.RoundTripIff | internal/filter/matcher.go:67-160 | a stored rule that is written out and added again is the same rule exactly when its first label is not empty and does not begin with white space and its last label is not empty and does not end with white space |
| Rules.MinimalBelow | internal/filter/matcher.go:144-160 | every rule has a rule of the enumeration as a suffix |
| Rules.MinimalAntichain | internal/filter/matcher.go:144-160 | no rule of the enumeration is a suffix of another |
| Rules.EachFaithful | internal/filter/matcher.go:144-160 | for rules that survive the round trip, adding the enumeration of one set to another gives a set that matches what either matches |
| Rules.SolidKept | internal/filter/engine.go:263-263 | every name matched by a rule of the old set whose labels are not empty and do not start with white space, and whose last label does not end with it, is matched after the old set's enumeration is added again, whatever else is in the set |
| Rules.KeepsIff | internal/filter/matcher.go:110-160 | one set matches every name another matches exactly when it matches the rules the other enumerates |
| Rules.RereadKeepsIff | internal/filter/engine.go:263-263 | adding a set's enumeration again loses no name exactly when each enumerated rule that does not survive the round trip is still matched |
| Rules.BlankLabelWidens | internal/filter/engine.go:263-263 | a rule with a blank label comes back as its whole top-level domain |
| Rules.BlankStartLost | internal/filter/engine.go:263-263 | a rule whose first label starts with a blank comes back as another one, which does not match the entry it came from |
| Rules.EmptyLabelsWiden | internal/filter/engine.go:264-264 | a rule with empty labels comes back as its whole top-level domain |
| Verdicts.VerdictsKeptIff | internal/filter/engine.go:134-145 | one pair of block and allow sets blocks every name that another pair blocks exactly when each block rule of that pair is matched, or was allowed as a whole, and wherever a new allow rule and an old block rule have names in common those were allowed already |
| Verdicts.RereadVerdictsIff | internal/filter/engine.go:257-267 | both sets written out and added again keep every block verdict exactly under a condition on the old sets alone, which only rules that do not survive the round trip can break |
| DomainTrie.DomainSet.Add | internal/filter/matcher.go:67-107 | the set gains the rule of the entry, its last three labels at most, if the entry is accepted; true exactly when the rule is new |
| DomainTrie.DomainSet.Has | internal/filter/matcher.go:110-137 | true exactly when some stored rule is a label suffix of the normalized name, and the same for every name that agrees up to case |
| DomainTrie.DomainSet.Len | internal/filter/matcher.go:140-140 | the number of distinct truncated rules added |
| DomainTrie.DomainSet.Each | internal/filter/matcher.go:144-160 | lists, once each, exactly the stored rules that no shorter stored rule covers |
| DomainTrie.DomainSet.Tld | internal/filter/matcher.go:162-169 | finds or makes the node; no mark of the trie changes and no node is shared |
| DomainTrie.DomainSet.Sld | internal/filter/matcher.go:171-178 | the same one level down |
| DomainTrie.DomainSet.AddLabels | internal/filter/matcher.go:73-106 | marks the place of the last three labels at most and nothing else |
| DomainTrie.IsTldLike | internal/filter/matcher.go:180-191 | true exactly for a non-empty label of lower-case letters, digits and hyphens |
| FilterEngine.AddAll | internal/filter/engine.go:304-308 | adds the rules of all entries and counts the new ones |
| FilterEngine.Engine.constructor | internal/filter/engine.go:93-119 | the sets start with exactly the inline entries |
| FilterEngine.Engine.Check | internal/filter/engine.go:134-145 | blocked exactly when a block rule and no allow rule matches; every check is counted once |
| FilterEngine.Engine.Fetch | internal/filter/engine.go:316-381 | a body is returned, cached and its metadata kept; a 304 returns the cached copy; anything else fails and changes nothing |
| FilterEngine.Engine.ParseInto | internal/filter/engine.go:298-313 | adds the parsed rules to the two sets and counts the new block rules; a parse error adds none |
| FilterEngine.Engine.LoadSources | internal/filter/engine.go:224-242 | the loop over the lists, with the fallback to cached copies, fills new sets, counts and the first error |
| FilterEngine.Engine.KeepOld | internal/filter/engine.go:257-267 | if some list failed without a cached copy, what the old sets enumerate is added to the new ones |
| FilterEngine.Engine.CarryMetas | internal/filter/engine.go:272-278 | keeps exactly the metadata of the listed sources |
| FilterEngine.Engine.Refresh | internal/filter/engine.go:207-290 | on the heap, a refresh leaves the state of `Refresh.RefreshStep`, and nothing at all within five seconds of the last try |
| RefreshLaws.Contents | internal/filter/engine.go:216-281 | exactly the rules a refresh leaves in each set: those of the inline deny (allow) entries, of the entries (exceptions) of the bytes in use and, only if some list gives nothing, those read back from the old set |
| RefreshLaws.Remembered | internal/filter/engine.go:224-287 | each list's file, metadata and failure after a refresh, and as the error the first fetch that failed |
| RefreshLaws.CachePathIs | internal/filter/engine.go:383-386 | a list's copy is named by its whole URL with four characters replaced |
| RefreshLaws.DenyEntriesHold | internal/filter/engine.go:207-290 | in every run a name at or below an inline deny entry is blocked unless an inline allow entry, an exception of bytes in use or an allow rule read back matches it |
| Refresh.LoadEach | internal/filter/engine.go:224-242 | after all lists are loaded, each one's block and allow rules are in the sets, its cached file and metadata are its own, and its count is -1 exactly when it failed without a cached copy, whatever the others did |
| Refresh.CountEach | internal/filter/engine.go:239-240 | a loaded list's count is the number of its rules that were new when its turn came |
| Refresh.MissingKeepsAll | internal/filter/engine.go:255-267 | if some list failed without a cached copy, every name that a rule of the old blocked set matched is still matched, for rules as in `Rules.SolidKept` |
| Refresh.MissingCoversIff | internal/filter/engine.go:255-267 | then the new blocked set matches every name the old one matched exactly when it matches each enumerated old rule that does not survive the round trip |
| Refresh.RefreshKeepsIff | internal/filter/engine.go:207-290 | any refresh leaves every blocked name blocked exactly when each old block rule is still matched, or was allowed as a whole, and wherever a new allow rule and an old block rule have names in common those were allowed already |
| Refresh.MissingKeepsIff | internal/filter/engine.go:255-267 | if some list failed without a cached copy, the same, with the first part needed only of enumerated rules that do not survive the round trip |
| Refresh.OutageAllows | internal/filter/engine.go:255-267 | a remote list sends the same body twice, another list fails in between, and a name of the first one's last good download is still matched but no longer blocked |
| Refresh.UnparsedBodyDrops | internal/filter/engine.go:298-302 | a remote list sends a body that does not parse after a good one: its rules drop out, and stay out while fetches fail |
| Refresh.OutageUnblocks | internal/filter/engine.go:203-267 | a local list that is read once and then fails: an entry that was blocked no longer is |
| Refresh.ProtectStep | internal/filter/engine.go:207-290 | one refresh with arbitrary downloads keeps all rules of the body every remote list sent last in the blocked set, what the rules of a local list's last content matched (rules as in `Rules.SolidKept`) matched, cached files and metadata in step with them, and the inline entries in the sets |
| Refresh.RunProtects | internal/filter/engine.go:207-290 | the same for every run of refreshes |
| Refresh.GoodInForce | internal/filter/engine.go:203-290 | in every run in which no body of a list after its last good one fails to parse, the rules of the good one are in force: all of them for a remote list, for a local one what rules as in `Rules.SolidKept` match; otherwise the list's own rules are not those of the good body, unless that had none |
| Refresh.StaysBlocked | internal/filter/engine.go:203-290 | in such a run every name that a remote list's last good download matches is in the blocked set, and so blocked exactly when no allow rule matches it; for a local list, every name under one of its rules as in `Rules.SolidKept` |
| Refresh.InlineEntries | internal/filter/engine.go:134-145 | in every run a name at or below an inline deny entry is blocked exactly when no allow rule matches it, and one at or below an inline allow entry never is |
| Refresh.DenyEntryCanLose | internal/filter/engine.go:134-145 | a list's exception rule unblocks an inline deny entry |
| WgAddress.ContainsRange | internal/wg/conf.go:66-67 | a prefix contains exactly the addresses from its network address up to its size, whether or not it is written with that address |
| WgAddress.OrLowValue | internal/wg/conf.go:89-98 | the OR byte by byte gives the last address of the prefix for 1 to 31 host bits |
| WgAddress.IsBroadcast | internal/wg/conf.go:82-101 | true exactly for the last address of a prefix with 1 to 31 host bits |
| WgAddress.AllocIp | internal/wg/conf.go:61-78 | the least address above the network address that is inside, not broadcast and not taken; an error exactly when the subnet does not parse or there is none |
| WgAddress.GatewayIsFirstHost | internal/wg/conf.go:104-114 | the server address is above the network address and inside; it is the first host exactly when the subnet is written with its network address |
| WgAddress.NetworkIs | internal/wg/conf.go:66-66 | the network address is the configured one with its host bits cleared |
| WgAddress.GatewayIff | internal/wg/conf.go:104-114 | there is a gateway exactly when the address after the configured one is inside, and it is that address |
| WgAddress.AssignableIff | internal/wg/conf.go:67-70 | a peer may be given exactly the addresses above the network address and inside, but the last one of a prefix of 1 to 31 bits |
| WgAddress.FirstPeer | internal/wg/conf.go:61-78 | with no peers, on a subnet of at most 30 bits written with its network address, the next address is the network address plus 2 |
| WgKernel.Manager.ApplyPeers | internal/wg/manager_linux.go:77-130 | whatever order the existing peers are visited in and wherever the device stops, what happens is a first part, and on success all, of a plan: new peers set, revoked and unwanted ones removed, existing ones not sent |
| WgKernel.ApplyExact | internal/wg/manager_linux.go:87-130 | a success leaves exactly the wanted peers: new ones with their address, existing ones with what they had less the addresses that moved |
| WgKernel.AgreesIff | internal/wg/manager_linux.go:76-130 | that is the wanted table exactly when each wanted peer that existed had its own address and no other, moved ones aside |
| WgKernel.ForeignAddressStays | internal/wg/manager_linux.go:110-116 | a wanted peer that the device holds with another address keeps it through a reconciliation that succeeds |
| WgKernel.ApplyKeeps | internal/wg/manager_linux.go:87-130 | successful or cut short, a reconciliation never gives a listed peer another address than its own, nor adds an unlisted one |
| WgKernel.ChangesApplied | internal/wg/manager_linux.go:91-116 | the table after the entries of the first loop |
| WgKernel.DropsApplied | internal/wg/manager_linux.go:117-122 | the table after the removals of the second loop, repeated ones included |
| WgPeers.KernelPeers | internal/wg/service.go:125-139 | one entry per row, newest first, revoked rows marked for removal |
| WgPeers.AppliedAgreesIff | internal/wg/service.go:141-150 | a list that is applied with success, however old, makes the kernel agree with the rows exactly when the active keys are those listed and each active peer that was in the kernel had its own address |
| WgPeers.OwnStep | internal/wg/service.go:141-212 | every step leaves peers in the kernel with their own addresses, except an application that stops half-way with a list whose peer has lost its address to another row |
| WgPeers.CommitKeeps | internal/store/store.go:112-125 | an insert of a picked address, accepted or refused by the UNIQUE columns, keeps the invariant even when the rows changed since it was picked |
| WgPeers.Steps | internal/wg/service.go:141-212 | every step (pick, insert, delete, revoke or restore, list, apply, interface down) keeps the invariant |
| WgPeers.RunSafe | internal/wg/service.go:141-212 | in every interleaving, with failures anywhere: peer addresses, revoked ones included, are distinct, above the network address and inside the subnet, never the broadcast address, and never the address after the configured one when that is inside; and an application that succeeds makes the kernel agree with the rows exactly when the list's active keys are still theirs and each of those peers that was in the kernel had its own address |
| WgPeers.RunAgrees | internal/wg/service.go:141-212 | in every interleaving in which no list with a reassigned address stops half-way, a successful application leaves the kernel with exactly the active rows exactly when the active keys are still those listed, whatever else failed before |
| WgRaces.DeletedPeerReturns | internal/wg/service.go:141-201 | a run in which a list read before a delete is applied after it: a success puts the deleted peer back |
| WgRaces.CutShortLoses | internal/wg/service.go:141-201 | a run in which an old list stops half-way, after which a reconciliation with the current rows succeeds and leaves a peer without its address |
| WgPeers.TwinsClash | internal/wg/service.go:164-183 | two AddPeer calls that overlap pick the same address, so one adds its peer and the other fails |
| WgService.Service.AddPeer | internal/wg/service.go:153-190 | adds a row with the least free address, the network address plus 2 for the first peer of an ordinary subnet, and says of each outcome and error exactly when it is reported; every success is a run of the step machine; the kernel agrees when the reconciliation works, whose failure does not fail the call |
| WgService.Service.RemovePeer | internal/wg/service.go:193-201 | deletes exactly the row with the id, if any, and reconciles; success leaves kernel and active rows in agreement |
| WgService.Service.SetPeerActive | internal/wg/service.go:204-212 | changes exactly the active flag of the row with the id, if any, and reconciles; success leaves kernel and active rows in agreement |
| WgService.Service.CreatePeer | internal/store/store.go:225-241 | the insert succeeds exactly when the store works and no UNIQUE column clashes |
| WgService.Service.ListPeers | internal/wg/service.go:125-139 | the loop builds the kernel list of the rows |
| WgService.NoClash | internal/store/store.go:112-118 | with a fresh key and a free address an insert is refused exactly when the name is taken |
| WgService.ReconcileStep | internal/wg/service.go:141-150 | rows that are listed and applied without interruption: own addresses are kept, and on success the kernel holds exactly the active rows, whatever failed before |
| Upstreams.EveryInterleaving | internal/dns/pool.go:274-311 | in every interleaving of exchange steps: in-flight equals the running exchanges, the failure count is the failures since the last success, no upstream is ever marked unhealthy without two failures in a row, and the latency lies between the least and the greatest sample, lost updates included |
| Upstreams.InvStep | internal/dns/pool.go:274-311 | one step of any exchange keeps that |
| Upstreams.Sequential | internal/dns/pool.go:294-302 | when exchanges run one at a time an upstream unhealthy between them has failed at least twice in a row, and without probes and fallbacks it is unhealthy exactly then |
| Upstreams.AtRest | internal/dns/pool.go:294-302 | in every interleaving in which no success is counted between a check that saw two failures and its mark, an upstream unhealthy at rest has failed at least twice in a row |
| Upstreams.LateMark | internal/dns/pool.go:294-302 | a run of three overlapping exchanges after which the upstream is unhealthy although its last counted result is a success |
| Upstreams.Alone | internal/dns/pool.go:274-311 | an exchange that runs alone is a run of the steps with the counters `Upstream.Exchange` leaves |
| Upstreams.EmaBetween | internal/dns/pool.go:303-309 | a new average lies between the old one and the sample |
| Upstreams.EmaWeights | internal/dns/pool.go:303-309 | four times the new average is three times the old one plus the sample, less at most three; the first sample is taken as it is |
| Upstreams.Settles | internal/dns/pool.go:303-309 | under equal positive samples the average reaches its limit within as many steps as it is away and stays: the sample from above or from zero, up to three below it from below |
| Pool.Upstream.Exchange | internal/dns/pool.go:274-311 | the counters after one exchange, in-flight restored |
| Pool.Upstream.Less | internal/dns/pool.go:394-404 | the order: fewer in flight, then lower latency, then larger weight |
| Pool.SortSlice | internal/dns/pool.go:394-404 | the same upstreams, ordered, ties in any order |
| Pool.Pool.Select | internal/dns/pool.go:387-410 | exactly the healthy upstreams, by rising in-flight count, among equals by rising latency, then by falling weight; all as configured when none is healthy |
| Pool.Pool.Query | internal/dns/pool.go:413-440 | tries at most the first three candidates, each once, until one answers; the browser comes after the last failure; no tried upstream has more in flight, among equals a higher latency, then a smaller weight, than a healthy one left out; the counters of the tried upstreams, and only those, are updated |
| Pool.WhenQueriesFail | internal/dns/pool.go:413-440 | a query fails exactly when the first three candidates, or all if fewer, fail and no browser answers; the browser answers exactly when they all fail and it can; otherwise the first of them to reply does |
| Pool.BestFirst | internal/dns/pool.go:387-420 | while an upstream is healthy every one tried is healthy; none tried has more in flight, among equals a higher latency, then a smaller weight, than a healthy one left out; none is tried twice |
| Pool.BrowserWhileHealthy | internal/dns/pool.go:413-440 | of more than three healthy upstreams three fail: the browser answers though the others would |
| Pool.TriedOnce | internal/dns/pool.go:413-440 | each tried upstream's counters are those of one exchange, every other keeps its own |
| Pool.QueryCounters | internal/dns/pool.go:413-440 | the health, failures, latency and in-flight count of each upstream after a query, tried or not |
| Pool.Pool.ProbeAll | internal/dns/pool.go:472-488 | every upstream that is unhealthy or has failed gets one exchange, every other is left as it is, and each one that answers is healthy with no failures afterwards |
| Metrics.Metrics.Observe | internal/dns/metrics.go:39-72 | totals, both tables and the window stay those of the whole history of observations |
| Metrics.Metrics.TakeSnapshot | internal/dns/metrics.go:89-113 | the totals of the history, its last queries newest first, and the per-domain table as a permutation in non-increasing order |
| Metrics.SortTop | internal/dns/metrics.go:141-148 | the in-place insertion sort gives a permutation in non-increasing order |
| Metrics.Conservation | internal/dns/metrics.go:39-66 | for every history the per-domain queries and blocked counts sum to the totals |
| Metrics.TotalsAre | internal/dns/metrics.go:42-48 | the totals are the numbers of observations with each mark |
| Metrics.DomainsAre | internal/dns/metrics.go:49-56 | the per-domain table has exactly the observed names, each with the number of its observations and of the blocked ones among them |
| Metrics.ClientsAre | internal/dns/metrics.go:57-66 | the per-client table has exactly the observed clients with positive numbers, counted the same way |
| Metrics.EntriesAre | internal/dns/metrics.go:105-107 | the snapshot's table has one entry for each observed name with exactly these numbers |
| Metrics.WindowIs | internal/dns/metrics.go:67-71 | all of the first 200 queries; after N > 200 queries the last 101 + (N - 201) mod 100 |
| Metrics.BlockedPlusCached | internal/dns/metrics.go:39-48 | if no observation is both blocked and cached, blocked plus cached is at most the queries |
| Metrics.WindowStep | internal/dns/metrics.go:67-71 | the window's closed-form size: it grows by one and drops to 101 after 200 |
| Metrics.RecentSnoc | internal/dns/metrics.go:67-71 | appending and dropping the oldest hundred keeps exactly the last queries of that number |

## Left out

- Sockets, TLS, HTTP and DoH framing, the browser transport, ACME, SQLite, netlink and shell commands: only their outcome appears, as an arbitrary value.
- Non-ASCII names and their IDNA conversion: names are ASCII.
- List parsing (internal/filter/parse.go): an arbitrary function from bytes and format to entries or an error.
- FilterEngine.Engine.Fetch: failing writes of cache files and bodies cut at 256 MiB are not modelled; a download that succeeds is stored whole.
- Sources whose names or cache paths coincide: `Refresh` results about single sources assume they are distinct, and that no local list has a file at its cache path.
- Server.Server.BlockResponse: header flags and the record class are not modelled, here or elsewhere, nor is wire packing.
- Changing the filter between a store and a later hit: a cached reply is not uncloaked again, so `Pipeline.RunClean` fixes the filter; replies that are not NOERROR are not uncloaked at all.
- Refresh, lookups and requests that overlap: engine, cache, pipeline and metrics calls run one after the other; interleavings are modelled for the peer service and for exchange steps. `WgService` calls run one after the other; how they overlap is in `WgPeers`.
- Pool.Pool.ProbeAll: probes run one after the other instead of concurrently; each touches its own upstream only.
- Wrap-around of the 64-bit counters and nanosecond durations; only the 32-bit TTL is truncated.
- Reading the device and configuring it are one step, as under the manager's mutex; other processes that change the device are not modelled.
- WgKernel.Manager.ApplyPeers: keys and addresses in the rows always parse, and giving an address to a peer takes it from any other, as the kernel does.
- Key generation is a parameter with a key never seen before; peer names are trimmed of ASCII spaces.
- IPv6 tunnel subnets, endpoints, configuration rendering, routing rules, Enable and Disable beyond the table being emptied.
- The SQL query log and its counters, the dashboard, clients' tokens, the command line.
- Metrics timestamps and uptime.
- Retrieval order of equal candidates in `Pool.SortSlice` and of map iteration in `DomainTrie.DomainSet.Each`: any order is allowed, as in the original.
