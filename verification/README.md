# A verified model of aster-core's stateful core

The project models, in Dafny, the parts of aster-core whose correctness rests on state that
changes step by step, and proves what they keep over whole runs. Each component follows the
form of its source: classes and arrays where the Go code updates objects and slices in place,
functions where it computes, a state machine where it is concurrent.

- **ARC cache** (`ArcModel`, `ArcProofs`, `ArcRuns`, `ArcPolicy`, `ArcCounter`, `ArcCache`). The
  adaptive replacement cache as a function on values, its invariant over every run, its agreement
  with a plain map, its replacement policy, what its length counter counts, and the class that
  refines the functions.
- **Listener registry** (`Listeners`). The transactional patch, with Close and Listen free to
  fail at every call, its rollback, and the fail-closed step.
- **Rule engine and kernel-direct classifier** (`RuleEngine`, `RuleLaws`, `KernelDirect`). Passes, nested
  groups, restarts; and when the classifier's "direct" is what the engine does.
- **UDP packet sender** (`PacketProtocol`, `PacketFate`, `PacketNat`). Every interleaving of Send, Process and
  Close; and the inline-then-promoted address tables as two first-writer-wins maps.
- **Group and dialer graphs** (`GroupGraph`, `DagSort`, `DagLoop`, `DialerCycle`). The in-place
  topological sort, the loop it reports, and the linear cycle check.
- **DNS** (`NetAddr`, `DnsAlias`, `DnsDname`, `DnsTerminal`, `DnsLaws`, `DnsAnswers`, `DnsTtl`, `DnsCache`,
  `DnsClone`). Alias chains of CNAME (section 3.6.2 of RFC 1034) and DNAME records (RFC 6672),
  TTL ageing in wrapping uint32 arithmetic, the compact cache entries, and who owns a message.
- **Load balancing** (`JumpHash`, `RoundRobin`). The consistent hash under any float rounding
  that is monotone and exact on the integers concerned, and the fairness of round robin.

Some natural claims are false of the code. Each has an input that shows it and the exact
condition under which it holds:

- A capacity of 0 makes the cache panic; every other capacity, negative ones included, never
  does (`ArcRuns.PanicFreeIff`).
- The cache's length is not the number of live entries and can go below zero
  (`ArcCounter.LenCanBeNegative`); it is that number less the ghosts discounted twice
  (`ArcCounter.LenIsLiveLessWaste`).
- "Direct" verdicts can be wrong when the deciding rule is disabled or a rule matches to a
  PassRule adapter (`KernelDirect.UntrustedVerdictsAreWrong`). For flows no unsafe rule matches,
  `KernelDirect.DirectExactly` says when the engine does go direct, and
  `KernelDirect.WrongExactlyOnPassRule` what that comes to when no rule is disabled. In direct mode
  they are wrong when a special proxy is not DIRECT (`KernelDirect.ModesExactly`).
- Whether an alias chain is resolved can depend on map iteration order
  (`DnsTerminal.OrderCanMatter`): one scan does exactly when owners of a length other than the
  greatest disagree while the longest ones agree (`DnsDname.OrderMattersExactly`), and the whole
  function succeeds in every order exactly when there is an answer and no such name on the way to
  it (`DnsTerminal.EveryOrderExactly`).
- A cached SERVFAIL can overstate a TTL, in either form it is kept in
  (`DnsCache.ServfailOverstates`, `DnsCache.CompactServfailOverstates`). What is served of an
  answer does not, exactly when, kept compactly, the record's TTL is at least 5, and, kept in full,
  the least TTL of the answers is at least 5 or the record's is at most 1
  (`DnsCache.ServfailServedExactly`); the other sections are as in `DnsTtl.ServfailExactly`.
- Expanding a compact entry does not always give the original records back
  (`DnsCache.ExpandCanDiffer`, `DnsCache.ExpandExactly`).

Where a comment and the code differ, the model follows the code: the comment on the ARC length
speaks of live entries, and the code counts as described above.

## Model

| member | source | states |
|---|---|---|
| ArcProofs.ReqKeeps | common/arc/arc.go:147-227 | A request for any key, in any state that satisfies the invariant, takes no element of an empty list, never divides by 0 and never reaches the last case; it keeps the sizes (t1+t2 <= c, t1+b1 <= c, total <= 2c, 0 <= p <= c, ghosts only when t1 and t2 are full), the filing of the keys in four disjoint lists and the ghost marks, puts the key in t1 if new and t2 if known, and leaves every other live entry as it was or evicts it |
| ArcProofs.HitGhostSizes | common/arc/arc.go:155-177 | A request that hits a ghost in b1 or b2 tunes p within [0, c], always finds something to replace, and keeps the size bounds |
| ArcProofs.MakeRoomSizes | common/arc/arc.go:178-199 | Making room for a new key never touches an empty list and leaves room in t1+t2, t1+b1 and in total |
| ArcRuns.SetKeeps | common/arc/arc.go:80-98 | Every Set keeps the invariant and leaves the key live, in t1 or t2, with the value and expiry given |
| ArcRuns.GetKeeps | common/arc/arc.go:113-136 | Every Get keeps the invariant and the entry's value, and moves a known key to t2 even if it is a ghost |
| ArcRuns.RunKeeps | common/arc/arc.go:45-227 | After every sequence of Set, Get and Clear with c >= 1 there was no panic, the invariant holds, and every live entry carries the value and expiry last set for its key since the last Clear |
| ArcRuns.GetReturnsLastSet | common/arc/arc.go:80-136 | After every run, a Get hit returns the value and expiry of the latest Set of that key since Clear; right after a Set of the key it always hits |
| ArcRuns.RunLossless | common/arc/arc.go:147-227 | As long as at most c different keys were set since Clear, no entry is evicted: the cached keys are exactly the keys set, and none is a ghost |
| ArcRuns.FewKeysAllHit | common/arc/arc.go:113-136 | Then every key set is a hit with its last value |
| ArcRuns.PanicFreeIff | common/arc/arc.go:16-20 | The cache panics on no sequence of operations if and only if its capacity is not 0 |
| ArcRuns.NegativeCapacity | common/arc/arc.go:178-199 | With a negative capacity there is never a panic and nothing is ever evicted: the cached keys are exactly those set since Clear, all live and with their last values |
| ArcPolicy.SetFollows | common/arc/arc.go:80-98 | From the lists and the target before a Set: a hit in b1 moves the target to min(c, p + max(1, b2/b1)), one in b2 to max(0, p - max(1, b1/b2)), any other leaves it; an entry gives way exactly if the key is not in t1 or t2 and these are full, and which one; which ghost is forgotten; what each of the four lists becomes, in order; and every other entry is untouched. The key holds the value and expiry given, at the front of t1 if it is new and of t2 if it is in any list |
| ArcPolicy.GetFollows | common/arc/arc.go:113-136 | The same of a Get for a key in any of the lists, and a Get for any other changes nothing; it hits exactly if there is an entry that is no ghost, with its value and expiry |
| ArcPolicy.OneVictim | common/arc/arc.go:213-227 | At most one other live entry is lost: the last of t1 if t1 is longer than the new target, or as long on a hit in b2, or all there is when the key is new; else the last of t2 |
| ArcPolicy.RemoveSplits | common/arc/entry.go:28-32 | Unlinking a key keeps the order of the others |
| ArcPolicy.EmptyAtFirst | common/arc/arc.go:35-56 | A new cache, and one just cleared, is empty, with target and counter 0 |
| ArcCounter.StepDrift | common/arc/arc.go:206-227 | Each operation widens the gap between the live entries and the counter by exactly the ghosts it discounts again |
| ArcCounter.LenIsLiveLessWaste | common/arc/arc.go:138-145 | After every run the counter is the number of live entries less the ghosts discounted twice, so it never exceeds that number and equals it if and only if there were none |
| ArcCounter.LiveWithinCapacity | common/arc/arc.go:147-227 | After every run at most c entries are live |
| ArcCounter.LenCanBeNegative | common/arc/arc.go:206-227 | Five operations on a cache of capacity 1 after which the counter is -1 while one entry is live |
| ArcCache.Arc.constructor | common/arc/arc.go:35-43 | A new cache is the empty value, whatever its capacity, and satisfies the invariant from capacity 1 on |
| ArcCache.Arc.Clear | common/arc/arc.go:45-56 | Clearing gives the empty value with the same capacity |
| ArcCache.Arc.SetMRU | common/arc/entry.go:22-32 | The entry leaves the list it was in and becomes the front of the given one; no other list changes |
| ArcCache.Arc.Replace | common/arc/arc.go:213-227 | The eviction on objects is the one on values |
| ArcCache.Arc.DelLRU | common/arc/arc.go:206-211 | Deletes exactly the least recent key of the given list |
| ArcCache.Arc.Req | common/arc/arc.go:147-177 | The request for a cached key, on objects, is the one on values |
| ArcCache.Arc.SetWithExpire | common/arc/arc.go:80-98 | On objects that satisfy the invariant: does not panic, keeps it, and the new contents are the Set of the old |
| ArcCache.Arc.Get | common/arc/arc.go:113-136 | Likewise for Get, with the same hit |
| Listeners.Registry.CloseStopped | listener/listener.go:770-782 | Each listener is closed once, in turn. Those whose Close succeeds leave the registry and the unusable set, the others stay, and nothing else is touched; it reports success if and only if no Close failed |
| Listeners.Registry.UndoStarted | listener/listener.go:735-750 | Undoing the started listeners in reverse loses no handle: one whose Close fails, and only such a one, ends up registered and marked; it is clean if and only if no Close failed |
| Listeners.Registry.RestoreClosed | listener/listener.go:751-767 | Each closed listener is back, registered and unmarked, unless its name was taken or its own Listen failed, whatever became of the others; it is clean if and only if no name is taken and no Listen failed |
| Listeners.Registry.Rollback | listener/listener.go:733-768 | If and only if no Close or Listen in it fails it is clean, and then the table before the patch is back with no new mark. In any case the invariant holds, every name is an old one restored or a marked replacement, and each closed listener is back and unmarked unless its own Listen failed or a started listener of its name would not close |
| Listeners.Registry.Patch | listener/listener.go:680-796 | All or nothing, told by the log of calls. Everything to stop is closed once; if all of that succeeds everything to start is started once, up to the first failure. The patch succeeds if and only if none of these calls failed. Then every wanted name serves in the configuration wanted: by its old listener if that was unmarked and had that configuration, else by the new one; and an old name that is not wanted is there if and only if old ones are not dropped. Otherwise, if no call inside the rollback failed, the registry is the one before; if one did, each name there is unchanged or held, marked, by a replacement that would not close, and each old name is as before unless the Listen of its own listener or the Close of its replacement failed in the rollback. A listener that need not change is not called, and keeps its place, mark and state |
| Listeners.Registry.FailClosed | listener/listener.go:818-839 | Nothing is called unless the name is a managed listener; its users are cleared, and only if that fails it is closed; it is unregistered if and only if that Close succeeds; no other listener is affected |
| Listeners.Registry.RunAll | listener/listener.go:680-839 | After every sequence of patches and fail-closed steps, whatever fails, each listener holding its address is registered and each registered name not marked unusable is serving |
| Listeners.PatchedAsIntended | listener/listener.go:709-795 | Closing what must stop and registering what was started yields the intended map |
| Listeners.IntendedNames | listener/listener.go:702-729 | Name by name, what the intended map is: the old listener if unmarked and of the wanted configuration, else the new one; the rest by whether old ones are dropped |
| RuleEngine.ChainVisitsOnce | adapter/outboundgroup/parser.go:88-94 | In a configuration the group sort accepts, or one with the built-in GLOBAL selector added to it, the Unwrap chain of every adapter is finite, at most two longer than the number of groups, and visits each group at most once |
| RuleEngine.GlobalComesLast | config/config.go:1043-1056 | A sorted configuration stays sound and in dependency order when the built-in GLOBAL selector over all proxies and groups is added after it, provided no group has that name or lists it |
| RuleEngine.GroupedWithGlobal | config/config.go:1043-1056 | So a snapshot whose configured groups pick among their members and whose GLOBAL picks among all meets what the engine's theorems ask of the groups |
| RuleEngine.ScanIsFirstSpecial | tunnel/tunnel.go:898-909 | The nesting loop stops at the first Pass or Rematch adapter of the whole chain, and at none only if there is none |
| RuleEngine.RunPass | tunnel/tunnel.go:889-918 | The loop over the rules is the pass defined rule by rule, with the metadata each matcher leaves behind |
| RuleEngine.PassEnds | tunnel/tunnel.go:889-918 | A pass that takes an adapter takes one that carries UDP if the flow needs it and has no Pass or Rematch in its chain |
| RuleEngine.RestartsEnd | tunnel/tunnel.go:885-937 | From any set of Rematch names already used, the restarts end within one pass more than the names left |
| RuleEngine.MatchWithState | tunnel/tunnel.go:884-938 | Ends within one pass more than there are Rematch names; an adapter chosen by a rule has neither Pass nor Rematch in its chain and carries UDP if needed; a Rematch adapter is returned only because its name restarted the match in an earlier pass, or its update failed, or it is what the name DIRECT stands for |
| RuleLaws.ChainLinks | tunnel/tunnel.go:897-909 | Each adapter of an Unwrap chain is the current pick of the group before it, and the last picks nothing or is no group |
| RuleLaws.PassIs | tunnel/tunnel.go:889-918 | A pass ends at the first rule, in order and with the metadata the enabled rules before it left, that is enabled, matches to a proxy there is, meets no Pass before a Rematch in its chain and can carry the flow; it takes that rule's target, or restarts with the first Rematch of its chain |
| RuleLaws.MatchedTrace | tunnel/tunnel.go:884-945 | A match is a run of passes from the flow's metadata: each over the sub-rules the metadata then names, or over the rules if it names none; each but the last restarts with a name not used before, whose adapter updates the metadata; the last gives the answer |
| RuleLaws.FirstAnswer | tunnel/tunnel.go:940-945 | An answer by a rule at the first pass is the target of a rule of the list the flow's sub-rule names, or of the rules, and that rule chose it; without an answer every rule of that list is passed over |
| KernelDirect.ClassifyKernelDirect | tunnel/kernel_direct.go:15-62 | The verdict per routing mode and special proxy; in rule mode it is direct if and only if, over the sub-rules named or else the rules, at some rule the verdict is settled so: a safe one matches to a Direct proxy, or the list ends, and every one before leaves it open |
| KernelDirect.DecideExactly | tunnel/kernel_direct.go:32-61 | The loop says direct if and only if there is such a rule, where an unsafe rule leaves the verdict open only if it names a Direct proxy, and a safe one if it does not match, or to no proxy there is, or to one that passes on |
| KernelDirect.ClassifierIsSound | tunnel/kernel_direct.go:15-90 | If the verdict is direct, the deciding rule is enabled and no enabled rule on the way matched to a PassRule adapter, then the engine sends every flow with that host, address, inbound and sub-rule to a Direct adapter at its first pass, whatever its source, port, user, process or network |
| KernelDirect.DirectExactly | tunnel/kernel_direct.go:35-61 | For a flow no unsafe rule matches, the engine answers with a Direct adapter at its first pass if and only if the target of the first enabled safe rule matching the destination, whose chain does not pass on and which can carry the flow, is Direct, or there is none; disabled rules, PassRule targets and groups included |
| KernelDirect.AddressRuleIsLawful | rules/common/ipcidr.go:38-48 | A rule on the destination address that resolves the host meets the hypothesis on rules if and only if the destination has an address already or the lookup finds none |
| KernelDirect.WrongExactlyOnPassRule | tunnel/kernel_direct.go:35-61 | With every rule enabled and no unsafe rule matching the flow, the verdict is right if and only if no rule on the way matched to a PassRule adapter |
| KernelDirect.UntrustedVerdictsAreWrong | rules/wrapper/wrapper.go:57-68 | Two rule lists the classifier calls direct and the engine does not: a disabled DIRECT rule before a proxy rule, and a rule for PASS-RULE |
| KernelDirect.ModesExactly | tunnel/tunnel.go:476-537 | With a special proxy in rule mode the verdict is exact; in direct mode it is right if and only if there is no special proxy or it is DIRECT |
| PacketProtocol.NextKeeps | tunnel/connection.go:239-292 | Every step of every interleaving keeps each packet in exactly one place and some call obliged to drain what is in a cancelled channel |
| PacketProtocol.RunKeeps | tunnel/connection.go:239-292 | So does every run from the start |
| PacketProtocol.NeverDroppedTwice | tunnel/connection.go:200-201 | In every run each packet is dropped at most as often as it was given to Send |
| PacketProtocol.ClosedLeavesNothing | tunnel/connection.go:254-292 | Once the sender is cancelled and all calls have returned, the channel is empty and each packet was dropped exactly as often as it was given |
| PacketProtocol.OpenIsSequential | tunnel/connection.go:239-287 | Until it is cancelled, the packets accepted are those handled followed by those in the channel, in order, within the capacity |
| PacketProtocol.NoCallIsStuck | tunnel/connection.go:239-292 | After cancellation every call that has not returned can take a step |
| PacketProtocol.CancelledComesToRest | tunnel/connection.go:239-292 | After cancellation the steps left are bounded by the work outstanding |
| PacketProtocol.AtRestAllReturned | tunnel/connection.go:239-292 | When no step is left, every call has returned |
| PacketFate.RoomMeansAccepted | tunnel/connection.go:273-281 | A Send at an open sender with room in the channel puts its packet there, and drops nothing |
| PacketFate.FirstLook | tunnel/connection.go:266-271 | A Send goes on if and only if the sender is open, and else drops its packet |
| PacketFate.ProcessTakesOldest | tunnel/connection.go:239-252 | Process at an open sender takes the oldest packet of the channel, drops it once, and waits again |
| PacketFate.OpenStuckExactly | tunnel/connection.go:239-292 | At an open sender a call has no step if and only if it has returned, or is a Process with an empty channel |
| PacketFate.OpenLosesOnlyToFullChannel | tunnel/connection.go:239-287 | In every run of an open sender each packet given was handled, is in the channel, is still with its Send, or was refused at a step where the channel was full |
| PacketFate.CancelledExactly | tunnel/connection.go:289-292 | The sender is cancelled if and only if some Close has begun to act |
| PacketNat.Sender.AddMapping | tunnel/connection.go:70-86 | The two tables become the first-writer-wins insertion of the old; at the limit a new origin is refused and changes neither |
| PacketNat.Sender.StoreOrigin | tunnel/connection.go:105-123 | The inline entry or the promoted map gain exactly this origin |
| PacketNat.Sender.StoreReverse | tunnel/connection.go:125-151 | The reverse side gains the target unless it has it or the origin is not valid |
| PacketNat.Sender.TargetAddress | tunnel/connection.go:189-198 | Answers as the plain map of origins |
| PacketNat.Sender.RestoreReadFrom | tunnel/connection.go:157-171 | Answers as the plain map of targets, and returns an address it does not know unmapped |
| PacketNat.HoldsFirstOrigins | tunnel/connection.go:70-103 | After every sequence of insertions the origins are exactly the first 4096 different ones |
| PacketNat.OriginsAreFirstWins | tunnel/connection.go:70-123 | Each maps to the target of its first insertion |
| PacketNat.ReverseIsFirstWins | tunnel/connection.go:125-151 | A target maps to the origin of the first accepted insertion with that target and a valid origin; if there is none it is absent |
| PacketNat.MappingsAreStable | tunnel/connection.go:70-151 | No later insertion changes an entry of either table |
| PacketNat.RoundTrip | tunnel/connection.go:70-198 | Once a new origin and a new target are mapped, whatever is inserted before and after, packets for the origin go to the target and replies from the target, plain or IPv4-mapped, come back as the origin |
| PacketNat.KeysSeparate | tunnel/connection.go:49-54 | Two destinations are one origin if and only if the ports agree and so do the hosts, or, without a host, the addresses up to IPv4 mapping |
| PacketNat.Answers | tunnel/connection.go:157-198 | After any insertions a destination has a target if and only if it is among the first 4096 origins, and then that of its first insertion; a reply comes back as the first accepted origin for its address, or as it is, unmapped |
| NetAddr.UnmapExactly | tunnel/connection.go:49-54 | An address of ten zero bytes and two of 255 before four others is those four as IPv4; nothing else is changed |
| DagSort.BuildGraph | config/utils.go:34-59 | The graph is built exactly when every group decodes and no name repeats, with in-degrees that count every mention, repeated members included |
| DagSort.TopoSort | config/utils.go:60-96 | The in-place rewrite from the back: what is written comes after what it refers to, and what is left has references |
| DagLoop.Peel | config/utils.go:99-137 | Removing nodes without outgoing references keeps every set in which each member has a predecessor and a successor |
| DagLoop.FindLoop | config/utils.go:99-144 | The names reported are different, and each has a predecessor and a successor among them |
| DagLoop.ProxyGroupsDagSort | config/utils.go:18-145 | Fails on a group that does not decode or a repeated name, leaving the slice alone; otherwise sorts if and only if the references have no cycle: then the slice is a permutation of its input and every group follows the groups it refers to; else the set reported is the largest one in which each name has a predecessor and a successor |
| GroupGraph.OrderedIsAcyclic | config/utils.go:60-96 | A list in which every group follows its references has no cycle |
| GroupGraph.LoopedIsCyclic | config/utils.go:99-144 | A non-empty set each member of which refers to a member contains a cycle |
| GroupGraph.CycleIsLooped | config/utils.go:99-144 | The names on a cycle form such a set |
| DialerCycle.HasCycle | config/utils.go:178-200 | For every iteration order: an error if and only if some dialer chain comes back to a proxy, naming one whose chain does; no name is marked as on the path twice, so there are at most as many markings as names |
| DialerCycle.Validate | config/utils.go:148-168 | Reports a missing dialer if and only if there is one, and otherwise a cycle if and only if there is one |
| DnsAlias.Merge | dns/middleware.go:95-110 | Refuses an empty owner and a different target; keeps the lesser TTL |
| DnsAlias.Collect | dns/middleware.go:117-144 | Succeeds if and only if the alias records are well formed, within the limit and free of conflicts; the maps then hold each owner's target with its least TTL |
| DnsAlias.MapsUnique | dns/middleware.go:117-144 | The records determine these maps |
| DnsAlias.RecordsPermute | dns/middleware.go:117-144 | Whether the records are acceptable, and their maps, do not depend on their order |
| DnsDname.ScanFinds | dns/middleware.go:151-172 | In any iteration order, a scan that succeeds finds the longest applicable owner with the least TTL among its equals; it fails only where owners of equal length disagree |
| DnsDname.OrderMattersExactly | dns/middleware.go:151-172 | Over the orders that visit each owner once, the scan has the same outcome in all of them if and only if no shorter owners disagree or the longest do |
| DnsDname.ScanDnames | dns/middleware.go:151-172 | The loop, in the order the map is ranged over, finds as stated |
| DnsTerminal.TakeHop | dns/middleware.go:148-195 | One step: CNAME and DNAME must agree where both apply, and the step has the lesser TTL |
| DnsTerminal.Terminal | dns/middleware.go:112-206 | Success is the end of the chain of at most 63 non-repeating steps the records determine, with the least TTL on the way; failure means the records determine none, or that the chain passes a name where shorter DNAME owners disagree |
| DnsTerminal.EveryOrderExactly | dns/middleware.go:112-206 | It succeeds however the DNAME map is ranged over, at every name, if and only if the records determine an answer and the chain to it passes no such name |
| DnsTerminal.SomeOrderExactly | dns/middleware.go:112-206 | It succeeds in some order if and only if the records determine an answer |
| DnsTerminal.OrderBoundFails | dns/middleware.go:151-172 | If the complete chain passes such a name there is an order with which the whole walk fails |
| DnsTerminal.OrderCanMatter | dns/middleware.go:112-206 | Three DNAME records and a question for which it finds an answer in some order and fails in another |
| DnsTerminal.DifferentOwnersAgree | dns/middleware.go:78-93 | If the DNAME owners have different labels there is no such name, so success is exactly that an answer is determined |
| DnsTerminal.ResolvesUnique | dns/middleware.go:112-206 | The records determine at most one answer |
| DnsTerminal.ResolvesPermutes | dns/middleware.go:112-206 | The answer does not depend on the order of the records |
| DnsLaws.KeyIs | dns/middleware.go:41-50 | A key is the name without one trailing dot, with its capitals in lower case |
| DnsLaws.Rewrites | dns/middleware.go:78-93 | A DNAME replaces the owner's labels by the target's and keeps all those in front |
| DnsLaws.AppliesExactly | dns/middleware.go:78-93 | It applies if and only if the name has at least one label in front of the owner's |
| DnsLaws.DnameHop | dns/middleware.go:148-195 | A hop follows the longest owner above the name, agrees with a CNAME of the name or fails, and has no TTL above those it follows |
| DnsLaws.NoDnameHop | dns/middleware.go:148-195 | With no owner above the name a hop is its CNAME, or there is none |
| DnsLaws.OnlyOwnerHop | dns/middleware.go:148-195 | With a single owner above the name the hop and its TTL are determined, the lesser one where a CNAME agrees |
| DnsLaws.OneDname | dns/middleware.go:112-206 | One DNAME record and a name any number of labels under its owner: those labels in front of the target's, at the record's TTL, in every iteration order |
| DnsLaws.OneCname | dns/middleware.go:112-206 | One CNAME record: its target at its TTL |
| DnsLaws.NoAliases | dns/middleware.go:112-206 | Without alias records of class IN: the question itself, with TTL 2^32 - 1 |
| DnsLaws.BadRecordFails | dns/middleware.go:73-76 | An alias record of class IN without a usable owner or target fails the message |
| DnsAnswers.Append | dns/middleware.go:208-226 | Keeps the list the first 64 different addresses, each with its least TTL |
| DnsAnswers.Collect | dns/middleware.go:228-270 | The answers are the first 64 different valid, non-fake addresses of the terminal name, in order of appearance, each with its least TTL cut to that of the path |
| DnsAnswers.CountedConcat | dns/middleware.go:237-268 | Answers are counted record by record, in order |
| DnsAnswers.CountedOne | dns/middleware.go:243-267 | A record counts if and only if it is of class IN and the family asked for, belongs to the terminal name and holds 4 or 16 bytes of an address that is not fake; then with the lesser TTL |
| DnsTtl.MinimalTTL | dns/util.go:27-68 | The least TTL among the records that are there, attained; 0 if there are none |
| DnsTtl.UpdateTTL | dns/util.go:70-90 | In place, every record of the section is aged, nil ones are left |
| DnsTtl.AgedIsShift | dns/util.go:70-90 | With no more time left than the least TTL, the wrapping arithmetic takes the same amount off every record, down to 1 |
| DnsTtl.AgedStays | dns/util.go:70-90 | With more time left than that, a TTL stays what it is unless the sum wraps around |
| DnsTtl.DropOPT | dns/util.go:260-279 | In place, the records that are not OPT move to the front in order and the rest is cleared |
| DnsTtl.ExtraWithoutOPT | dns/util.go:233-258 | The records that are not OPT, in order |
| DnsTtl.WithoutOPTConcat | dns/util.go:233-258 | OPT records are stripped one by one and the others stay in order |
| DnsTtl.FullEntryNeverOverstates | dns/util.go:312-366 | Of a message other than SERVFAIL kept in full, no record of any section served before expiry claims more than its TTL less the time since it was stored, or 1 |
| DnsTtl.LeftIsClose | dns/resolver.go:183-196 | The whole seconds left fall short of the time left by less than two |
| DnsTtl.FullEntryLosesNoMore | dns/util.go:312-366 | Nor does it lose more than the time passed, the excess of the section's least TTL over the lifetime, and two seconds, and never goes below 1 |
| DnsTtl.FullEntryKeepsDifferences | dns/util.go:312-366 | And the differences between the TTLs of any one section, as served, are those stored, up to the clamp at 1; their order always is |
| DnsTtl.ServfailExactly | dns/util.go:327-331 | For a record of a section of a SERVFAIL kept in full that bound holds at all times before it expires if and only if the section's least TTL is at least 5 or the record's at most 1 |
| DnsCache.MsgToIP | dns/util.go:517-535 | The valid addresses of the answer section, unmapped, in order |
| DnsCache.AddressesConcat | dns/util.go:517-535 | Addresses are read record by record, in order, whatever stands between them |
| DnsCache.AddressesOne | dns/util.go:517-535 | An A or AAAA record of 4 bytes is an IPv4 address, one of 16 an IPv6 address unless it is a mapped IPv4 one, and nothing else is |
| DnsCache.CompactIPs | dns/msg_cache.go:96-126 | Compact if and only if there is an answer, no other section, and every record is an address of the name asked for; then no address and no header is lost |
| DnsCache.Encode | dns/msg_cache.go:83-91 | Whatever form is kept, peeking at its addresses is reading them off the message |
| DnsCache.Put | dns/util.go:312-343 | Not kept exactly for an ACME challenge or a lifetime of 0; otherwise for the least TTL of all records but OPT, or 5 seconds for SERVFAIL, with the message's addresses |
| DnsCache.Expand | dns/msg_cache.go:132-157 | One record per address, in order, under the name and class asked for |
| DnsCache.CompactKeepsAddresses | dns/msg_cache.go:96-157 | Reading the addresses off the expanded entry gives those of the message, in order |
| DnsCache.ExpandExactly | dns/msg_cache.go:96-157 | The expanded answer is the original up to TTLs if and only if every record has the class asked for, no A record has 16 bytes and no AAAA record holds an IPv4 address |
| DnsCache.ExpandCanDiffer | dns/msg_cache.go:96-157 | An AAAA record that holds an IPv4 address comes back as an A record |
| DnsCache.AnswersNeverOverstate | dns/resolver.go:183-196 | However a message other than SERVFAIL was kept, no answer served before expiry claims more than its original TTL less the time since it was stored, or 1 |
| DnsCache.ServfailOverstates | dns/util.go:327-331 | A SERVFAIL record of 3 seconds still claims 3 a second later |
| DnsCache.CompactServfailOverstates | dns/msg_cache.go:96-157 | An address record of 1 second in a SERVFAIL, kept compactly, claims 5 at once |
| DnsCache.ServfailServedExactly | dns/resolver.go:183-196 | What the cache serves of an answer of a SERVFAIL stays within the bound at all times before it expires if and only if, kept compactly, the record's TTL is at least 5, and, kept in full, the least TTL of the answers is at least 5 or the record's at most 1 |
| DnsClone.CloneCells | dns/util.go:185-198 | The copies read the same and live in memory of their own |
| DnsClone.CloneMsg | dns/util.go:204-228 | So does the copy of a message |
| DnsClone.MsgCache.GetForCaller | dns/msg_cache.go:48-57 | A hit gives a message that reads as the entry and shares no memory with the cache; a miss gives none |
| DnsClone.MsgCache.HitAgain | dns/msg_cache.go:48-57 | After any change whatever to the message of one hit, its records and their bytes, a later hit on the same key or any other reads as before |
| JumpHash.JumpAdvances | adapter/outboundgroup/loadbalance.go:74-78 | Every jump goes strictly forward and stays within int64, so the loop ends |
| JumpHash.JumpHash | adapter/outboundgroup/loadbalance.go:71-81 | The result is in [0, buckets) for buckets >= 1 and 0 otherwise, and is the specified bucket |
| JumpHash.StepIs | adapter/outboundgroup/loadbalance.go:76-77 | The key moves by the linear congruence 2862933555777941757 k + 1 modulo 2^64; a jump goes to b + 1 times 2^31 over one more than the key's upper 31 bits, each rounded, then truncated |
| JumpHash.TwoBuckets | adapter/outboundgroup/loadbalance.go:71-81 | Of two buckets, in exact arithmetic, a key goes to the second if and only if the top bit of its successor is set |
| JumpHash.GrowingMovesOnlyToNewBuckets | adapter/outboundgroup/loadbalance.go:71-81 | With more buckets a key stays where it was or moves to a new one; with one more, to that one |
| JumpHash.ConsistentPick | adapter/outboundgroup/loadbalance.go:158-180 | The first live proxy among five hashed tries; if all five miss, the first live one of the list, or the first of all if none is live |
| JumpHash.TryKeyIs | adapter/outboundgroup/loadbalance.go:163 | The i-th try hashes the key plus i modulo 2^64 |
| RoundRobin.Strategy.Pick | adapter/outboundgroup/loadbalance.go:129-156 | Returns the next live proxy from the index; only a touched pick moves the index, so an untouched one returns what the next touched one will |
| RoundRobin.PickedIsNextLive | adapter/outboundgroup/loadbalance.go:129-156 | A pick is the first live proxy at or after the index, going round, and the index moves just past it; with none alive it is the first of the list |
| RoundRobin.OneRoundIsFair | adapter/outboundgroup/loadbalance.go:129-156 | From any index, as many touched picks as there are live proxies return each of them exactly once |
| RoundRobin.RoundsAreFair | adapter/outboundgroup/loadbalance.go:129-156 | Over m such rounds each live proxy is picked m times and no dead one ever |

## Left out

- ArcCache.Arc.SetWithExpire: on objects the operations are stated for capacities from 1 on; other capacities are covered on values by `ArcRuns.PanicFreeIff` and `ArcRuns.NegativeCapacity`.
- ArcCache.Arc.SetMRU: the linked lists are sequences of keys, each key naming its entry; list elements and their links are not modelled. The mutex is not either, since every operation holds it throughout.
- ArcCache.Arc.Get: the expiry is returned as stored, in whole seconds; the clock is not part of the cache.
- Listeners.Registry.Patch: names are taken in an arbitrary order rather than sorted, a Close that fails leaves its listener as it was, new listeners are objects not seen before, and error texts are not modelled.
- RuleEngine.MatchWithState: rule matchers, the choice of a group and the metadata update of a Rematch adapter are parameters; hit counters and logs are left out.
- KernelDirect.ClassifyKernelDirect: which rules are safe is an attribute of the rule, with the law that a safe rule reads only the fields the flows share; the rule types themselves are not modelled.
- KernelDirect.ClassifierIsSound: assumes, of the rules and for flows to the destination in question, that matching leaves the shared fields alone, that safe rules read only these, and that an unsafe rule naming a DIRECT proxy matches to no other adapter; and that Direct, Pass and PassRule adapters are leaves that carry UDP. Rules that resolve the host meet this once the destination has an address.
- KernelDirect.DirectExactly: is about the answer at the first pass; the answers of later passes, after a Rematch adapter, are not characterised. For flows an unsafe rule matches there is only `KernelDirect.ClassifierIsSound`, since the classifier does not evaluate those rules.
- KernelDirect.WrongExactlyOnPassRule: is the case of `KernelDirect.DirectExactly` in which no rule is disabled and the verdict is direct.
- KernelDirect.ModesExactly: the lookup of the host among the configured hosts before the mode is not modelled.
- PacketProtocol.NextKeeps: a packet's handling between receipt and drop is one step; contexts, read deadlines and the write-back target are left out.
- PacketNat.Sender.AddMapping: addresses have no zones, and the lock around the reverse side is not modelled.
- DagLoop.ProxyGroupsDagSort: map iteration is in arbitrary order; the text of the error is its list of names.
- DialerCycle.Validate: proxies are given by name and dialer name; nil proxies are not modelled.
- DnsTerminal.Terminal: the order in which a map is ranged over at each name and the split of a name into labels are parameters, and the lower-casing of names is that of ASCII letters.
- DnsAnswers.Collect: is the loop over both sections, for a response with a terminal name; the checks of the header before it are left out, and whether an address is fake is a parameter.
- DnsTtl.FullEntryNeverOverstates: the two readings of the clock on a hit are one.
- DnsCache.Encode: a missing message is not modelled, since the resolver never stores one.
- DnsClone.CloneCells: the deep copy that the DNS library makes of record types with nested data is taken to be the same copy; typed nil records are not modelled.
- Serving an expired entry with TTL 1 and refetching it, and the LRU alternative to the ARC cache: they would add only easy members.
- Sticky sessions, URL tests and provider updates, which depend on clocks and network results.
- Outbound adapters, TLS, QUIC and HTTP transports, DoH, DoT and DoQ, the single-port listeners, configuration parsing, and the individual rule types.
