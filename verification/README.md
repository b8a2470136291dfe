# Snffr: a verified model of its enforcement and decision core

Snffr captures packets at the edge, evaluates them in a central manager, and answers with blocks and
rate limits that the edge agent puts into the kernel and the host firewall and takes out again when
they expire. This project models the parts that keep state and decide, and proves what holds over
whole runs of them, under every interleaving the code allows.

| files | what they model |
|---|---|
| `Word64`, `TokenBucket`, `XdpFilter`, `XdpFrames` | the XDP program: header checks, block lists, the 64-bit token bucket, verdicts; and what it does in terms of raw frames |
| `XdpStats` | its atomic counters when invocations overlap on several CPUs |
| `Responder`, `ResponderOrder`, `KernelList` | the agent's firewall rules and kernel block list, the two-step installs and the concurrent cleanup tasks |
| `FirewallVerdict`, `HostVerdict` | what the chain alone, and the kernel list before the chain, do to a packet |
| `Strings`, `PortSpec` | port lists and ranges, down to splitting, trimming and parsing numbers |
| `SlidingWindow`, `RuleEngine`, `RuleEngineRuns`, `RuleMatching` | signature and threshold rules with their pruned history, what each criterion asks, and the answers |
| `Aggregator`, `AggregatorRuns` | flow windows, the sweep, the bounded result channel |
| `Features`, `Decision`, `Server` | features, risk fusion, and the two paths from a report to a command |
| `Proto`, `Wrappers` | the messages and `Option` |

Stateful code appears twice: as a class whose methods follow the source step by step, and as a
function that specifies each step. Every method is proved equal to its specification, and the
theorems about runs are proved of the specification. Beside those theorems stand laws that fix the
answers themselves, in raw bytes, fields and numbers, without naming the functions that specify the
steps (`XdpFrames`, `RuleMatching`, and the rows below that say exactly).

Conventions. Times are integers in nanoseconds. C arithmetic is reduced modulo 2^64 where the code
wraps; the rule window wraps as a signed 64-bit product. Features are real numbers. Go library calls
without code here (`EqualFold`, `ToUpper`, hex, CIDR and IP parsing, regular expressions) are
arbitrary total functions, and so is the model's label. Running `iptables` or `bpftool` is one atomic
step; whether XDP is active and `bpftool` succeeds is free at every step. A rule scan reads the clock
anew for each rule that counts the packet.

## What turned out not to hold

- **A source can starve after a long silence.** When `elapsed * rate` overflows 64 bits the refill may
  be nothing at all (`LongSilenceStarves`). `PassesIff` is the exact condition for a packet to pass,
  both overflows included (`AllPassIff` follows it along a run). Without the product's overflow a
  well-spaced source is dropped only where old and new tokens add up to exactly 2^64
  (`SpacedNeverDroppedIff`), and so never in a bucket below the bound of `SumNeverVanishes`.
- **Overlapping blocks lose the kernel entry.** When one of two blocks of a source expires, the source
  leaves the XDP block list although the other is still running (`OverlapLosesXdpEntry`) or permanent
  (`PermanentLosesXdpEntry`). `XdpInSyncIff` says which steps lose an entry, whatever XDP and `bpftool`
  answer, and `AlwaysInSyncIff` that runs without such a step are the runs in which every block has its
  entry at every moment. The `iptables` DROP remains (`OutstandingBlockDrops`).
- **A failed removal leaves the source in the kernel list.** Nothing tries again, and no task is left
  that could (`FailedRemovalLeaks`). `NoStrayEntryIff` and `NeverStrayIff` are the exact conditions, and
  `XdpRestored` the consequence: without such a failure the list ends with permanent blocks only.
- **A BLOCK beside a RATE_LIMIT may not block.** In the chain it fails in two ways. A BLOCK after a RATE_LIMIT
  stands behind the older limit-ACCEPT, which keeps admitting its rate (`LimitOutranksLaterBlock`); and a
  BLOCK before one is opened up when a later block expires first, because the cleanup deletes the first
  DROP (`ExpiryOpensOlderBlock`). The exact conditions for the chain are `BlockStopsIff`, `CompleteBlockIff`
  and `StaysBlockedIff`. An XDP entry hides both, until it goes: with XDP up and every command
  succeeding, a short block that expires takes the entry of a longer one away and leaves its DROP behind
  a limit-ACCEPT, so the source gets through (`ExpiryReopensHost`). For the whole host `AppendShutsIff`
  and `BlockShutsIff` say when a BLOCK stops its source, `ShutStepIff` which steps let a stopped source in
  again, and `StaysShutIff` that in any run no others do. Two positive results: with no limit in force an
  outstanding block always stops its source (`UnlimitedSourceIsBlocked`), and with XDP attached so does every
  block while no step loses a kernel entry (`KeptEntriesShut`).
- **Two rules with one ID can miss hits.** Nothing enforces distinct IDs, and a shorter window then prunes
  what a longer one needs (`SharedIdLosesHits`). `TryAgreesIff` says which hits do this, and
  `PrunedHistoryIff` that the pruned history is as good as the full log throughout a run exactly when no
  hit of the run does. Equal windows (`PrunedHistoryIsExact`) or distinct IDs (`DistinctIdsAreExact`) are enough.
- **A failed inference silences the rules.** A comment in `manager/internal/decision/engine.go` (114-115)
  says that rule-only evaluation continues so that no malicious flow is dropped silently;
  `evaluateAndRespond` discards the result on any error (`FailedInferenceSilencesRules`). The model follows the code.

Two more differences between text and code, where the model again follows the code: the project's own
README lists only the ACCEPT rule for a Linux rate limit, but a DROP is appended after it; and
`Results()` warns of blocking the sweep, but a full channel makes the sweep drop the result instead.

## Model

| member | source | states |
|---|---|---|
| XdpFilter.XdpProgram.TakeToken | agent/src/ebpf/xdp_block.c:108-131 | The in-place bucket update of one packet: product wrapped before the division, cap, time moved only when a token accrued, one token spent; other buckets untouched. |
| TokenBucket.RefillShape | agent/src/ebpf/xdp_block.c:114-116 | A refill happens exactly when the wrapped product has reached 10^9: the guards on elapsed time and rate add nothing. It leaves no residue, and without one the residue is below 10^9. |
| TokenBucket.RefillCredit | agent/src/ebpf/xdp_block.c:113-123 | In billionths of a token, refilling never creates credit, leaves less than one token unconverted, and never exceeds the bucket. |
| TokenBucket.InstantExact | agent/src/ebpf/xdp_block.c:107-131 | Any number of packets at one instant, for every bucket, both overflows included: as many pass as there are tokens on hand (stored, or stored and new up to the rate), and the bucket keeps the rest, its time moved exactly when a refill was due. |
| TokenBucket.InstantWithoutWrap | agent/src/ebpf/xdp_block.c:113-126 | Without overflow that is min(packets, rate, tokens + floor(rate * elapsed / 10^9)). |
| TokenBucket.QuietSecondAdmitsRate | agent/src/ebpf/xdp_block.c:113-126 | After a second of silence a source may send its whole rate at once. |
| TokenBucket.ResidueGrowsAtMost | agent/src/ebpf/xdp_block.c:111-115 | Between clock readings the unconverted credit grows by at most rate per nanosecond, even though the difference and the product both wrap. |
| TokenBucket.NeverMoreThanFluid | agent/src/ebpf/xdp_block.c:107-131 | For any nondecreasing arrivals, any stored time and any overflow, no more packets pass than through an exact fractional bucket that starts full, on every prefix. |
| TokenBucket.WindowBound | agent/src/ebpf/xdp_block.c:107-131 | Any stretch of arrivals passes at most burst + floor((rate * span + 10^9 - 1) / 10^9) packets; burst is the rate for a bucket not handed out fuller. |
| TokenBucket.WindowBoundAttained | agent/src/ebpf/xdp_block.c:113-126 | The bound is reached, and the bound without the rounding term is exceeded. |
| TokenBucket.CreditConserved | agent/src/ebpf/xdp_block.c:113-122 | Without overflow, over any run the tokens credited are worth at most the elapsed time and more than half of it, and no time is consumed when none was credited. |
| TokenBucket.SpacedNeverDroppedIff | agent/src/ebpf/xdp_block.c:107-131 | A source whose packets are at least one token's time apart, with no product overflowing, loses none of them if and only if stored and new tokens never add up to exactly 2^64, in runs of any length. |
| TokenBucket.SumNeverVanishes | agent/src/ebpf/xdp_block.c:113-123 | Such a sum never occurs, in any run, in a bucket whose tokens and rate stay clear of the top of the word by 2^64/10^9. |
| TokenBucket.SpacedNeverDropped | agent/src/ebpf/xdp_block.c:107-131 | Hence a bucket below that bound never drops a source whose packets are at least one token's time apart with no product overflowing. |
| TokenBucket.PassesIff | agent/src/ebpf/xdp_block.c:107-130 | Exactly when one packet passes, for every bucket and clock reading: with a refill due, when the wrapped sum of stored and new tokens is not zero; without one, when a token is stored. |
| TokenBucket.AllPassIff | agent/src/ebpf/xdp_block.c:107-130 | PassesIff along a run of any length: nothing is dropped if and only if it holds at every arrival, each time of the bucket the earlier arrivals leave. |
| TokenBucket.LongSilenceStarves | agent/src/ebpf/xdp_block.c:111-116 | At 2^31 packets per second a drained bucket still drops a packet after 8.6 s of silence. |
| XdpFilter.XdpProgram.UpdateStat | agent/src/ebpf/xdp_block.c:68-73 | Adds one, modulo 2^64, to a counter that exists and does nothing for any other index. |
| XdpFilter.XdpProgram.Filter | agent/src/ebpf/xdp_block.c:76-151 | One run of the program on any frame, truncated ones included: the verdict, the bucket update, and exactly one verdict counter beside the total. |
| XdpFilter.SourceIsolated | agent/src/ebpf/xdp_block.c:98-131 | In traffic of any sources mixed with block-list edits, a rate-limited source gets the verdicts, and its bucket the state, of its own packets alone. |
| XdpFilter.ArrivalsFollowClock | agent/src/ebpf/xdp_block.c:110 | The packets of one source that reach the limiter keep the clock order of the whole traffic. |
| XdpFilter.RateHolds | agent/src/ebpf/xdp_block.c:98-131 | After any past and in any further interleaved traffic, the packets of a source that pass obey the window bound. |
| XdpFilter.BlockedGetsNothing | agent/src/ebpf/xdp_block.c:101-105 | Every packet of a listed source is dropped, without touching its bucket, until it is unlisted. |
| XdpFrames.DropIff | agent/src/ebpf/xdp_block.c:82-147 | Exactly which frames are dropped, from their raw bytes: at least 34 bytes of type 08 00 whose bytes 26 to 29 are listed, or rate-limited with nothing to spend; or at least 54 bytes of type 86 DD whose bytes 22 to 37 are listed. |
| XdpFrames.ChangesOneBucket | agent/src/ebpf/xdp_block.c:107-131 | Exactly what a frame changes: nothing but the bucket of an unlisted IPv4 sender, its tokens, and its time with a refill. |
| XdpFrames.OtherBytesIgnored | agent/src/ebpf/xdp_block.c:82-147 | Frames alike in length, type and sender get the same verdict and leave the same maps. |
| XdpFrames.ListFollowsEdits | agent/src/ebpf/xdp_block.c:101-105 | After any traffic a key is listed if and only if its last edit listed it; the IPv6 list is never edited. |
| XdpFrames.ListedSenderIsDropped | agent/src/ebpf/xdp_block.c:101-105 | A frame whose sender the last edit listed is dropped. |
| XdpFrames.InstantBurst | agent/src/ebpf/xdp_block.c:107-131 | In traffic of any sources, of one source's packets at one instant exactly as many pass as its bucket has tokens on hand. |
| XdpFrames.QuietSourceGetsItsRate | agent/src/ebpf/xdp_block.c:107-131 | In traffic of any sources, a source silent for a second gets its whole rate through at once. |
| XdpStats.CountersAddUp | agent/src/ebpf/xdp_block.c:68-151 | In every interleaving of invocations the total is dropped + passed + those in flight modulo 2^64, and with none in flight the counters count the verdicts, over all exits. |
| XdpStats.CountersAreSerial | agent/src/ebpf/xdp_block.c:68-151 | However invocations overlap on processors, once none is in flight the maps and all three counters are those of one sequential run over the frames that entered, in the order of their decisions. |
| XdpStats.RunKeepsBalance | agent/src/ebpf/xdp_block.c:68-151 | The invariant behind it, kept by every step of every schedule. |
| Responder.Agent.HandleCommand | agent/src/responder.rs:6-20 | BLOCK and RATE_LIMIT start the corresponding install; ALLOW changes nothing. |
| Responder.Agent.InstallStep | agent/src/responder.rs:22-59 | One atomic step of an install, for block_ip and for the two appends of rate_limit_ip_linux (88-102), with the cleanup task spawned when the duration is positive. |
| Responder.Agent.CleanStep | agent/src/responder.rs:46-57 | One atomic step of a cleanup task: the XDP entry then the DROP of a block, the ACCEPT then the DROP of a limit (102-111). |
| Responder.Agent.Delete | agent/src/responder.rs:53-55 | Deletes the first equal rule only, and reports whether there was one. |
| Responder.RulesConserved | agent/src/responder.rs:22-113 | For any initial chain and every interleaving, the count of every rule is initial + permanent + owed by unfinished tasks or the command in progress; so every delete finds its rule. |
| Responder.StepConserves | agent/src/responder.rs:22-113 | The same balance is kept by each single step, for all rules at once. |
| ResponderOrder.ForeignRulesKeepOrder | agent/src/responder.rs:40-57 | Rules the agent did not write are never lost, added or reordered. |
| ResponderOrder.RestoredExactly | agent/src/responder.rs:44-58 | When all commands and tasks are done and none was permanent, a chain that began without agent rules is exactly as it was. |
| ResponderOrder.TimedCommandsLeaveNothing | agent/src/responder.rs:44-58 | Commands with a positive duration never leave a permanent rule, in any interleaving. |
| ResponderOrder.OutstandingBlockDrops | agent/src/responder.rs:40-57 | While any task for a source is unfinished, or a permanent block stands, the chain has a DROP for it, whichever rules other tasks deleted. |
| ResponderOrder.CoveredDelete | agent/src/responder.rs:53-55 | Deleting the first DROP, whichever install wrote it, leaves every tail of the chain with a DROP for each limit-ACCEPT as long as the chain has one to spare. |
| ResponderOrder.LimitsAreBacked | agent/src/responder.rs:87-113 | From a chain without agent rules, in every reachable state each limit-ACCEPT is followed by a DROP for its source, except the last one of a source whose install is between its two appends. |
| KernelList.XdpInSyncIff | agent/src/responder.rs:22-57 | For every step and every answer of XDP and bpftool: the kernel list keeps an entry for each installed block, timed or permanent, if and only if the step neither expires one of two blocks of a source nor fails to make a missing entry. |
| KernelList.AlwaysInSyncIff | agent/src/responder.rs:22-57 | In every interleaving, each such block has its entry at every moment if and only if no step loses one. |
| KernelList.OverlapLosesXdpEntry | agent/src/responder.rs:44-51 | A reachable state with a block outstanding, its DROP in place and its XDP entry gone. |
| KernelList.PermanentLosesXdpEntry | agent/src/responder.rs:44-51 | The same for a block without a duration, in a state where nothing is left to run. |
| KernelList.NoStrayEntryIff | agent/src/responder.rs:22-57 | For every step and every answer: each kernel entry still belongs to a block if and only if the step does not fail to remove the entry of an expiring block that is the source's only one. |
| KernelList.NeverStrayIff | agent/src/responder.rs:22-57 | The same at every moment of every interleaving. |
| KernelList.ListIsExact | agent/src/responder.rs:22-57 | With neither failure in a run, the kernel list is exactly the set of sources with an installed block. |
| KernelList.XdpRestored | agent/src/responder.rs:44-57 | When all commands and tasks are done and no removal leaked, only permanently blocked sources are listed: none if nothing is permanent. |
| KernelList.FailedRemovalLeaks | agent/src/responder.rs:46-51 | One failed removal ends with the chain restored, nothing outstanding, and the source still listed. |
| FirewallVerdict.OverLimitDropped | agent/src/responder.rs:92-111 | While any task for a source is unfinished, its packets beyond every limit are dropped. |
| FirewallVerdict.BlocksCompletelyIff | agent/src/responder.rs:40-42 | The chain stops a source at every rate if and only if no limit-ACCEPT of it precedes its first DROP. |
| FirewallVerdict.BlockStopsIff | agent/src/responder.rs:40-42 | For the chain, decided before the DROP is appended and whatever ran since the command came: it will drop the source at every rate if and only if a DROP already comes first or it holds no limit-ACCEPT of the source. |
| FirewallVerdict.LimitOutranksLaterBlock | agent/src/responder.rs:40-42 | A reachable state, with XDP down, in which a blocked source is still accepted at its older limited rate. |
| FirewallVerdict.CompleteBlockIff | agent/src/responder.rs:22-113 | For the chain: it ceases to drop a source at every rate if and only if the step is a cleanup deleting the first DROP while a limit-ACCEPT of the source stands before its next DROP, or none follows. |
| FirewallVerdict.StaysBlockedIff | agent/src/responder.rs:22-113 | For the chain in every interleaving: a source it drops at every rate stays so at every moment if and only if no step is of that kind. |
| FirewallVerdict.ExpiryOpensOlderBlock | agent/src/responder.rs:53-55 | A reachable state, with XDP down, in which a block issued before any limit is outstanding and its source is accepted at the limit's rate. |
| FirewallVerdict.UnlimitedSourceIsBlocked | agent/src/responder.rs:22-113 | In every reachable state a source with an unfinished task or a permanent block, and no limit in force, is dropped at every rate. |
| FirewallVerdict.BlockUndone | agent/src/responder.rs:22-59 | Left alone, a timed block adds one DROP, one task and, if that succeeds, the XDP entry. Its expiry restores chain and tasks, and the whole state if and only if no entry was made or its removal succeeds. |
| FirewallVerdict.RateLimitUndone | agent/src/responder.rs:88-113 | Left alone, a timed rate limit adds ACCEPT then DROP; its expiry restores the whole state. |
| FirewallVerdict.UntimedIsPermanent | agent/src/responder.rs:22-113 | Left alone, a block or limit with duration 0 puts in the same rules, spawns no task, and is recorded as permanent. |
| FirewallVerdict.PermanentRulesStay | agent/src/responder.rs:40-57 | After any past and in any future, whatever other blocks and limits expire, the chain holds each permanent rule as often as it was put in. |
| HostVerdict.ShutIff | agent/src/ebpf/xdp_block.c:101-105 | The host drops a source at every rate if and only if XDP is attached and lists it, or the chain's first rule for it that can apply is a DROP. |
| HostVerdict.AppendShutsIff | agent/src/responder.rs:28-42 | Decided before the DROP is appended, whatever ran since the command came: the host will drop the source at every rate if and only if XDP is attached and lists it, a DROP already comes first, or the chain holds no limit-ACCEPT of it. |
| HostVerdict.BlockShutsIff | agent/src/responder.rs:22-42 | Decided before an undisturbed BLOCK: the same, where the source may also be listed by this BLOCK, when XDP is active and bpftool succeeds. |
| HostVerdict.ShutStepIff | agent/src/responder.rs:22-113 | A step lets a stopped source in again if and only if it takes the kernel entry out while the chain is open to the source, or opens the chain while there is no entry. |
| HostVerdict.StaysShutIff | agent/src/responder.rs:22-113 | In every interleaving a stopped source stays stopped at every moment if and only if no step is of that kind. |
| HostVerdict.KeptEntriesShut | agent/src/responder.rs:22-57 | With XDP attached, in every run that loses no kernel entry, each installed block, timed or permanent, stops its source whatever limits the chain holds. |
| HostVerdict.ExpiryReopensHost | agent/src/responder.rs:44-57 | A reachable state, with XDP up and every command successful throughout, in which a 600 s block is outstanding and its source is accepted at an older limit's rate. |
| HostVerdict.AllowLeavesHost | agent/src/responder.rs:17-19 | An ALLOW changes nothing on the host. |
| HostVerdict.SparedSourceStaysClear | agent/src/responder.rs:6-20 | In every interleaving and at every moment, from a host that holds nothing about a source: if commands name it only to ALLOW it, no rule, task, install or kernel entry is ever for it, and the host decides nothing about its packets. |
| HostVerdict.AllowedSourceIsUndecided | agent/src/responder.rs:6-20 | The same from the agent's start on any chain without rules for the source. |
| PortSpec.MatchPort | manager/internal/rule_engine/engine.go:166-208 | The search loop decides exactly the branch-by-branch predicate, for every number, specification and port. |
| PortSpec.ListRoundTrip | manager/internal/rule_engine/engine.go:177-186 | Any non-empty list of ports, printed with commas and arbitrary blanks, accepts exactly the listed ports; one port alone goes through the last branch (201-204). |
| PortSpec.RangeRoundTrip | manager/internal/rule_engine/engine.go:190-199 | A printed range accepts exactly the ports from its first to its last, both included. |
| PortSpec.NumberDecides | manager/internal/rule_engine/engine.go:166-173 | A port number decides alone whatever the text says; with neither, every port is accepted. |
| PortSpec.ListAccepts | manager/internal/rule_engine/engine.go:177-186 | A list of any texts accepts the ports some of them parse to and passes over the others. |
| PortSpec.RangeAccepts | manager/internal/rule_engine/engine.go:190-199 | A range of any two texts accepts what lies between them if both parse, and nothing otherwise. |
| PortSpec.ManyDashesAcceptNothing | manager/internal/rule_engine/engine.go:190-199 | With more than one dash nothing is accepted. |
| PortSpec.SingleAccepts | manager/internal/rule_engine/engine.go:201-204 | Any other text accepts the one port it parses to, or none. |
| Strings.SplitUndoesJoin | manager/internal/rule_engine/engine.go:178 | Splitting a joined list gives its parts back when none contains the separator. |
| Strings.AtoiUndoesPrint | manager/internal/rule_engine/engine.go:180 | Trimming and parsing gives a printed number back, blanks included, and an error above the int64 range. |
| Strings.AtoiSigned | manager/internal/rule_engine/engine.go:180 | A sign is read, down to -2^63 and up to 2^63 - 1. |
| Strings.AtoiRejects | manager/internal/rule_engine/engine.go:180 | A text without digits, or with any other character, is an error. |
| SlidingWindow.PruneLoop | manager/internal/rule_engine/engine.go:279-285 | Keeps exactly the times strictly after the cutoff, in order. |
| SlidingWindow.HitAgrees | manager/internal/rule_engine/engine.go:273-290 | One hit answers the same on the pruned list as on the full log, and the two stay indistinguishable for every later cutoff. |
| SlidingWindow.PruneInvisibleIff | manager/internal/rule_engine/engine.go:276-285 | Pruning at one cutoff cannot be seen from another on if and only if no stored time lies between the two. |
| SlidingWindow.HitLosesIff | manager/internal/rule_engine/engine.go:273-290 | A hit that does not trigger leaves the list as good as the full log for another window if and only if it drops no time that window still reaches. |
| SlidingWindow.HitCount | manager/internal/rule_engine/engine.go:273-290 | Fewer than the threshold are stored between calls, so a trigger uses exactly that many. |
| SlidingWindow.ConsumedAtMost | manager/internal/rule_engine/engine.go:273-290 | Hits used by triggers and hits still stored never exceed the hits seen: none is counted twice. |
| SlidingWindow.ConsumedAtLeast | manager/internal/rule_engine/engine.go:273-290 | Within one window no hit is lost: each is used by a trigger or still stored. |
| SlidingWindow.TriggerBounds | manager/internal/rule_engine/engine.go:273-290 | n hits within less than a window trigger between floor(n/P) and floor((n+P-1)/P) times, whatever was stored before. |
| RuleEngine.Engine.CountHit | manager/internal/rule_engine/engine.go:266-290 | Append, prune, compare, reset for one rule and source; every other list is unchanged. |
| RuleEngine.Engine.Evaluate | manager/internal/rule_engine/engine.go:252-332 | The loop over the rules, reading the clock once for each rule that counts the packet, returns the reply, and leaves the history, of the specified scan. |
| RuleEngine.Engine.LoadRules | manager/internal/rule_engine/engine.go:90-134 | A file is accepted exactly when it reads, parses and all its patterns compile; then the compiled rules replace the old ones and all history is dropped. Otherwise nothing changes. |
| RuleMatching.ReplyIsExact | manager/internal/rule_engine/engine.go:256-332 | Every reply carries out a rule that the packet matches, ahead of every stateless one it matches: its action (BLOCK for any text but RATE_LIMIT and ALLOW), duration, rate, target and reason, the latter with the suffix of a threshold. Without a reply no stateless rule matches. |
| RuleMatching.CriteriaConjoin | manager/internal/rule_engine/engine.go:211-249 | A rule matches exactly when each of its eight criteria alone does. |
| RuleMatching.CriterionMeans | manager/internal/rule_engine/engine.go:136-249 | What each criterion asks of which field of the report: protocol, addresses (network, address, text), ports, and occurrence or match in the payload. |
| RuleMatching.LoadedExactly | manager/internal/rule_engine/engine.go:94-116 | A file is accepted if and only if it parses and all its patterns compile; the rules are installed as they stand, each with its own pattern. |
| RuleMatching.PatternApplies | manager/internal/rule_engine/engine.go:104-112 | A packet that an installed rule with a pattern matches has a payload which that pattern matches. |
| RuleMatching.WindowWraps | manager/internal/rule_engine/engine.go:278 | The window is the number of seconds times 10^9 as a signed 64-bit number. |
| RuleMatching.ReadsAnew | manager/internal/rule_engine/engine.go:256-273 | A rule counts a packet at a clock reading of its own, the next after those of the counting rules ahead of it. |
| RuleEngineRuns.AnswerIsFirstMatch | manager/internal/rule_engine/engine.go:256-332 | The answering rule matches and no stateless rule before it does; an unanswered packet matches no stateless rule. |
| RuleEngineRuns.TryAgreesIff | manager/internal/rule_engine/engine.go:256-290 | One rule's turn answers the same from the pruned history and from the full log; for all rules at once the two still agree afterwards if and only if the hit is not a lossy one of a shared ID. |
| RuleEngineRuns.PrunedHistoryIff | manager/internal/rule_engine/engine.go:256-310 | Over every run with reloads and a clock that never goes back, the pruned history agrees with the full log since the last trigger or reload after every rule of every scan if and only if no hit is lossy; then all answers are the same. |
| RuleEngineRuns.PrunedHistoryIsExact | manager/internal/rule_engine/engine.go:261-310 | When rules that share an ID share the window, in the first rules and in every accepted file, the engine answers every run exactly as one that counts over the full log. |
| RuleEngineRuns.DistinctIdsAreExact | manager/internal/rule_engine/engine.go:261-310 | The same for distinct IDs, whatever the windows. |
| RuleEngineRuns.SharedIdLosesHits | manager/internal/rule_engine/engine.go:266-290 | Two packets on which two rules with one ID and different windows miss a trigger that the full log gives. |
| RuleEngineRuns.SourcesAreIndependent | manager/internal/rule_engine/engine.go:252-332 | In any interleaved run, reloads included, a source is answered as if its packets were the only ones. |
| RuleEngineRuns.RedundantRuleRemovable | manager/internal/rule_engine/engine.go:256-265 | Deleting a rule with a non-positive threshold field, or one behind a stateless rule that matches all it matches, changes no answer of any run. |
| RuleEngineRuns.ReloadIsRestart | manager/internal/rule_engine/engine.go:90-134 | A successful reload is a fresh start on the new rules; a failed one can be erased from the run. |
| RuleEngineRuns.RunIsFreshEngines | manager/internal/rule_engine/engine.go:90-134 | A run with any number of reloads answers as one fresh engine for each accepted reload does on the packets up to the next; failed reloads can all be erased. |
| RuleEngineRuns.RunAtRule | manager/internal/rule_engine/engine.go:256-310 | With distinct IDs, the list of one rule and source follows the sliding window of its own hits in any traffic. |
| RuleEngineRuns.RuleTriggerBounds | manager/internal/rule_engine/engine.go:256-310 | After any run of packets and reloads with distinct IDs in every accepted file, the packets of a source that reach and match a threshold rule within its window trigger it between floor(n/P) and floor((n+P-1)/P) times. |
| Aggregator.FlowAggregator.IngestReport | manager/internal/aggregator/aggregator.go:178-215 | Counts one report and exports the flow at 200 packets, changing no other flow. |
| Aggregator.FlowAggregator.Collect | manager/internal/aggregator/aggregator.go:276-291 | The locked pass over all flows, in whatever order the map gives them, each key once. |
| Aggregator.FlowAggregator.PushNext | manager/internal/aggregator/aggregator.go:294-301 | Queues the next result, or loses it on a full channel, without blocking. |
| Aggregator.FlowAggregator.ReceiveNext | manager/internal/aggregator/aggregator.go:221-223 | Receives the oldest queued result. |
| Aggregator.SweepLeavesUnexpired | manager/internal/aggregator/aggregator.go:279-290 | A sweep removes exactly the flows it visits that are 5 s old and leaves the others as they were. |
| AggregatorRuns.AccumulateIsStateOf | manager/internal/aggregator/aggregator.go:191-207 | Counting reports one by one gives the counters of the whole stretch: first and last time, number and bytes, all as forward. |
| AggregatorRuns.NoteSound | manager/internal/aggregator/aggregator.go:178-302 | Every step of reports, sweeps, pushes and receives keeps the ledger of segments in agreement with the aggregator. |
| AggregatorRuns.EveryReportAccountedFor | manager/internal/aggregator/aggregator.go:178-302 | In every interleaving each flow's reports, those equal to its key in source, destination, destination port and protocol, are its closed segments end to end and then the active one, of under 200; each closed segment was returned at 200, or found expired after 5 s and then thin (under 3), lost, ready, queued or delivered; each list holds exactly the results of its segments in order, and the channel at most 256. |
| AggregatorRuns.PushLosesIff | manager/internal/aggregator/aggregator.go:294-301 | A push queues the next result unless 256 are waiting, and loses it only then. |
| AggregatorRuns.ResultsAreSegments | manager/internal/aggregator/aggregator.go:209-302 | Every result is the export of 3 to 200 reports that share its key's four fields: exactly 200 when returned, fewer when swept, under 200 * 2^32 bytes; its features give their number, bytes and rates back. |
| AggregatorRuns.ActiveFlowBounds | manager/internal/aggregator/aggregator.go:200-212 | Active flows hold 1 to 199 packets, forward counters equal to totals, bounded bytes, and their key's port. |
| AggregatorRuns.RatesGiveTotals | manager/internal/aggregator/aggregator.go:72-103 | Mean times count, and each rate times the duration with its 1 ms floor, give the totals back. |
| AggregatorRuns.DurationInMicroseconds | manager/internal/aggregator/aggregator.go:85-94 | The duration is the elapsed time in whole microseconds, truncated towards zero also when the clock readings are reversed. |
| AggregatorRuns.FlowsStayYoung | manager/internal/aggregator/aggregator.go:257-290 | With a clock that never goes back and sweeps at most 2.5 s apart, every active flow is younger than 7.5 s. |
| Decision.Score | manager/internal/rules/engine.go:138-147 | The loop adds the deltas of exactly the rules that fire. |
| Decision.EvaluateExact | manager/internal/decision/engine.go:108-141 | The evaluation in numbers: 50 for an anomaly, 20, 20, 15 and 10 for the four rules with their limits, Block from 60, RateLimit from 30. |
| Server.ExportedFeatures | manager/internal/aggregator/aggregator.go:72-103 | An exported flow has at most 200 forward packets, so that rule never fires; over 1400 bytes a packet at over 1000 packets a second means over 10^6 bytes a second. |
| Server.FlowPathExact | manager/internal/grpc_server/server.go:156-210 | Over every result any run can produce and every label: the whole command, in numbers. BLOCK for 300 s exactly when anomalous with a high byte rate, packet rate or packet size; RATE_LIMIT for 60 s at 100 pps exactly when anomalous with none, or normal with the byte rate and another; the reason carries the score. |
| Server.FlowPathOnReports | manager/internal/grpc_server/server.go:156-210 | The same from the reports of the flow, in whole numbers: n reports of b bytes within t ns have a high byte rate if and only if 1000 b > t, a high packet rate if and only if 10^6 n > t, and a large size if and only if b > 1400 n. |
| Server.FailedInferenceSilencesRules | manager/internal/grpc_server/server.go:160-165 | A failed inference sends nothing. The rules alone never say Block, and say RATE_LIMIT exactly when the byte rule and another fire. |
| Server.CommandsTargetTheSender | manager/internal/grpc_server/server.go:119-150 | A report yields the rule reply, if any, and then the flow reply, if any, and nothing else; both act only on its source address. |
| Server.Monitor.Receive | manager/internal/grpc_server/server.go:133-150 | One pass of the receive loop: the rule reply first, then the flow reply, with both engines updated accordingly. |
| Server.Monitor.Drain | manager/internal/grpc_server/server.go:86-98 | One pass of the draining goroutine answers the oldest queued result. |
| Server.FlowCommandsLeaveNoTrace | manager/internal/grpc_server/server.go:190-210 | An agent that carries out only flow-path commands, in any interleaving with its cleanups, ends with the chain it started from; and with the whole firewall it started from, kernel list included, unless a removal leaks an entry. |

## Left out

- Packet capture, header parsing into reports, gRPC transport, the event bus, the terminal UI and the test scripts: input, output and library wrappers.
- The ONNX model and its runtime: the label is arbitrary, and inference may fail for any flow.
- Windows `netsh` and QoS commands: opaque external commands.
- How `bpftool` reads the key bytes, failing `iptables` commands, and rates that `iptables` rejects: every append and delete succeeds.
- The 10240-entry limits of the BPF maps, and who fills `rate_limit_ips`: the entries are given.
- Two CPUs updating one bucket at once: the updates are plain loads and stores, so reading the maps and spending a token is one step in `XdpStats`; only the counters are split.
- float32 rounding of features and thresholds: real numbers, so comparisons right at a threshold may differ.
- YAML parsing, the file watcher's timer and the log lines: a reload is a step that fails or delivers rules.
- Attaching and detaching the XDP program, which `load_xdp` does before the first command and `unload_xdp` at exit: in `HostVerdict` it is attached or not for a whole run.
- Stopping the aggregator, and the end of a stream: runs simply end.
- Saturation in Go's time arithmetic: instants are unbounded integers.
- SpacedNeverDroppedIff: assumes that no product overflows, as `LongSilenceStarves` shows it must; `PassesIff` covers the other arrivals.
- `ToFeatureVector`, `Decision.String` and the copying constructors: true by reading.
