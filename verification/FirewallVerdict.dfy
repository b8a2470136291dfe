/** What the agent's chain does to a packet, and what a block or a rate limit therefore achieves. */
module FirewallVerdict {
  import opened Proto
  import opened Responder
  import opened ResponderOrder

  datatype FwVerdict = Dropped | Accepted | Undecided

  // The first agent rule that applies to a packet from ip. admits are the rates whose limit module
  // still has room for it; foreign rules are taken not to apply.
  function Decide(chain: seq<FwRule>, ip: string, admits: set<u32>): FwVerdict {
    if chain == [] then Undecided
    else match chain[0]
      case Drop(x) => if x == ip then Dropped else Decide(chain[1..], ip, admits)
      case LimitAccept(x, pps) => if x == ip && pps in admits then Accepted else Decide(chain[1..], ip, admits)
      case Foreign(_) => Decide(chain[1..], ip, admits)
  }

  // Over every limit, a packet is dropped exactly when some DROP for its source is in the chain.
  lemma {:induction false} OverLimitVerdict(chain: seq<FwRule>, ip: string)
    ensures Decide(chain, ip, {}) == if Drop(ip) in chain then Dropped else Undecided
  {
    if chain == [] {
    } else {
      OverLimitVerdict(chain[1..], ip);
    }
  }

  // While any cleanup task for ip is outstanding, its packets beyond the limits are dropped.
  lemma OverLimitDropped(initial: seq<FwRule>, steps: seq<Step>, ip: string)
    requires Schedule(Start(initial), steps)
    ensures var h := Run(Start(initial), steps);
      (exists i | 0 <= i < |h.tasks| :: h.tasks[i].ip == ip) ==> Decide(h.chain, ip, {}) == Dropped
  {
    OutstandingBlockDrops(initial, steps, ip);
    OverLimitVerdict(Run(Start(initial), steps).chain, ip);
  }

  ghost predicate Stopped(chain: seq<FwRule>, ip: string) {
    forall admits :: Decide(chain, ip, admits) == Dropped
  }

  predicate DropComesFirst(chain: seq<FwRule>, ip: string) {
    exists i | 0 <= i < |chain| ::
      chain[i] == Drop(ip) && forall j | 0 <= j < i :: !(chain[j].LimitAccept? && chain[j].ip == ip)
  }

  lemma DropFirstUnfold(chain: seq<FwRule>, ip: string)
    ensures DropComesFirst(chain, ip)
            <==> chain != [] && (chain[0] == Drop(ip)
                                 || (!(chain[0].LimitAccept? && chain[0].ip == ip) && DropComesFirst(chain[1..], ip)))
  {
  }

  lemma {:induction false} SomeRateGetsThrough(chain: seq<FwRule>, ip: string) returns (admits: set<u32>)
    requires !DropComesFirst(chain, ip)
    ensures Decide(chain, ip, admits) != Dropped
  {
    if chain == [] {
      admits := {};
    } else if chain[0].LimitAccept? && chain[0].ip == ip {
      admits := {chain[0].pps};
    } else {
      DropFirstUnfold(chain, ip);
      admits := SomeRateGetsThrough(chain[1..], ip);
    }
  }

  lemma {:induction false} DroppedAtAnyRate(chain: seq<FwRule>, ip: string, admits: set<u32>)
    requires DropComesFirst(chain, ip)
    ensures Decide(chain, ip, admits) == Dropped
  {
    DropFirstUnfold(chain, ip);
    if chain[0] != Drop(ip) {
      DroppedAtAnyRate(chain[1..], ip, admits);
    }
  }

  // The chain blocks a source completely if and only if none of its limit-ACCEPTs precedes its first DROP.
  lemma BlocksCompletelyIff(chain: seq<FwRule>, ip: string)
    ensures Stopped(chain, ip) <==> DropComesFirst(chain, ip)
  {
    if DropComesFirst(chain, ip) {
      forall admits
        ensures Decide(chain, ip, admits) == Dropped
      {
        DroppedAtAnyRate(chain, ip, admits);
      }
    } else {
      var admits := SomeRateGetsThrough(chain, ip);
    }
  }

  predicate Limited(chain: seq<FwRule>, ip: string) {
    exists i | 0 <= i < |chain| :: chain[i].LimitAccept? && chain[i].ip == ip
  }

  // What one more rule at the end does.
  lemma {:induction false} DropFirstAppend(chain: seq<FwRule>, r: FwRule, ip: string)
    ensures DropComesFirst(chain + [r], ip)
            <==> DropComesFirst(chain, ip) || (r == Drop(ip) && !Limited(chain, ip))
  {
    DropFirstUnfold(chain, ip);
    DropFirstUnfold(chain + [r], ip);
    if chain == [] {
      DropFirstUnfold([], ip);
    } else {
      assert (chain + [r])[1..] == chain[1..] + [r];
      DropFirstAppend(chain[1..], r, ip);
      assert Limited(chain, ip) <==> (chain[0].LimitAccept? && chain[0].ip == ip) || Limited(chain[1..], ip) by {
        assert chain == [chain[0]] + chain[1..];
      }
    }
  }

  // Whether the chain will stop the source of a BLOCK at every rate is settled by the chain just
  // before its DROP is appended, whatever has run since the command came in.
  lemma BlockStopsIff(h: Host, active: bool, ok: bool)
    requires h.installer.BlockAppend?
    ensures var ip := h.installer.ip;
      Stopped(InstallNext(h, active, ok).chain, ip) <==> DropComesFirst(h.chain, ip) || !Limited(h.chain, ip)
  {
    DropFirstAppend(h.chain, Drop(h.installer.ip), h.installer.ip);
    BlocksCompletelyIff(InstallNext(h, active, ok).chain, h.installer.ip);
  }

  // The rules behind the first DROP for ip.
  function AfterFirstDrop(chain: seq<FwRule>, ip: string): seq<FwRule> {
    if chain == [] then []
    else if chain[0] == Drop(ip) then chain[1..]
    else AfterFirstDrop(chain[1..], ip)
  }

  lemma {:induction false} DropFirstDelete(chain: seq<FwRule>, r: FwRule, ip: string)
    requires DropComesFirst(chain, ip)
    ensures DropComesFirst(DeleteFirst(chain, r), ip)
            <==> (r == Drop(ip) ==> DropComesFirst(AfterFirstDrop(chain, ip), ip))
  {
    DropFirstUnfold(chain, ip);
    DropFirstUnfold(DeleteFirst(chain, r), ip);
    if chain[0] != Drop(ip) {
      if chain[0] != r {
        assert DeleteFirst(chain, r)[1..] == DeleteFirst(chain[1..], r);
      }
      DropFirstDelete(chain[1..], r, ip);
    }
  }

  // Step s deletes the first DROP of ip while a limit-ACCEPT of ip would then come first.
  predicate OpensUp(h: Host, s: Step, ip: string)
    requires Enabled(h, s)
  {
    s.Clean?
    && (h.tasks[s.task] == BlockTask(ip, true) || (h.tasks[s.task].LimitTask? && h.tasks[s.task].acceptDeleted))
    && h.tasks[s.task].ip == ip && !DropComesFirst(AfterFirstDrop(h.chain, ip), ip)
  }

  // A chain that blocks a source completely is opened up by such a cleanup step and by no other step.
  lemma CompleteBlockIff(h: Host, s: Step, ip: string)
    requires Enabled(h, s) && DropComesFirst(h.chain, ip)
    ensures DropComesFirst(Next(h, s).chain, ip) <==> !OpensUp(h, s, ip)
  {
    hide DropComesFirst, DeleteFirst, AfterFirstDrop;
    match s
    case Command(_) =>
    case Install(_, _) =>
      match h.installer {
        case Idle =>
        case BlockXdp(_, _) =>
        case BlockAppend(x, _) => DropFirstAppend(h.chain, Drop(x), ip);
        case LimitAppend(x, _, pps) => DropFirstAppend(h.chain, LimitAccept(x, pps), ip);
        case LimitDrop(x, _, _) => DropFirstAppend(h.chain, Drop(x), ip);
      }
    case Clean(i, _, _) => DropFirstDelete(h.chain, Target(h.tasks[i]), ip);
  }

  ghost predicate StaysBlocked(h: Host, steps: seq<Step>, ip: string)
    requires Schedule(h, steps)
    decreases |steps|
  {
    Stopped(h.chain, ip) && (steps != [] ==> StaysBlocked(Next(h, steps[0]), steps[1..], ip))
  }

  ghost predicate NeverOpensUp(h: Host, steps: seq<Step>, ip: string)
    requires Schedule(h, steps)
    decreases |steps|
  {
    steps != [] ==> !OpensUp(h, steps[0], ip) && NeverOpensUp(Next(h, steps[0]), steps[1..], ip)
  }

  // Over whole schedules: a source that the chain blocks at every rate stays so as long as, and only
  // as long as, no step opens the chain up. Later limits do not; expiring blocks may.
  lemma {:induction false} StaysBlockedIff(h: Host, steps: seq<Step>, ip: string)
    requires Schedule(h, steps) && DropComesFirst(h.chain, ip)
    ensures StaysBlocked(h, steps, ip) <==> NeverOpensUp(h, steps, ip)
    decreases |steps|
  {
    hide DropComesFirst, OpensUp, Stopped;
    BlocksCompletelyIff(h.chain, ip);
    if steps == [] {
    } else {
      var h' := Next(h, steps[0]);
      CompleteBlockIff(h, steps[0], ip);
      BlocksCompletelyIff(h'.chain, ip);
      if DropComesFirst(h'.chain, ip) {
        StaysBlockedIff(h', steps[1..], ip);
      }
    }
  }

  // No limit of ip stands, is being put in, or waits to be taken out.
  predicate FreeOfLimits(h: Host, ip: string) {
    && !(h.installer.LimitDrop? && h.installer.ip == ip)
    && (forall i | 0 <= i < |h.tasks| :: h.tasks[i].LimitTask? && h.tasks[i].ip == ip ==> h.tasks[i].acceptDeleted)
    && !Limited(h.permanent, ip)
  }

  lemma {:induction false} NothingOwed(tasks: seq<Task>, r: FwRule)
    requires forall i | 0 <= i < |tasks| :: Owes(tasks[i], r) == 0
    ensures Owed(tasks, r) == 0
  {
    if tasks == [] {
    } else {
      NothingOwed(tasks[1..], r);
    }
  }

  // In every reachable state a source with an unfinished task or a permanent block, and no limit
  // still in force, is dropped at every rate.
  lemma UnlimitedSourceIsBlocked(initial: seq<FwRule>, steps: seq<Step>, ip: string)
    requires !Limited(initial, ip) && Schedule(Start(initial), steps)
    requires FreeOfLimits(Run(Start(initial), steps), ip)
    ensures var h := Run(Start(initial), steps);
      (exists i | 0 <= i < |h.tasks| :: h.tasks[i].ip == ip) || Drop(ip) in h.permanent
      ==> Stopped(h.chain, ip)
  {
    hide Schedule, Run;
    var h := Run(Start(initial), steps);
    RulesConserved(initial, steps);
    OutstandingBlockDrops(initial, steps, ip);
    if Limited(h.chain, ip) {
      var i :| 0 <= i < |h.chain| && h.chain[i].LimitAccept? && h.chain[i].ip == ip;
      var r := h.chain[i];
      CountPositive(h.chain, r);
      CountPositive(initial, r);
      CountPositive(h.permanent, r);
      NothingOwed(h.tasks, r);
      assert false;
    }
    if Drop(ip) in h.chain {
      assert DropComesFirst(h.chain, ip);
      BlocksCompletelyIff(h.chain, ip);
    }
  }

  // So a BLOCK that arrives while the source is rate-limited does not stop it: without XDP the
  // older limit-ACCEPT keeps letting the limited rate through until it expires.
  lemma LimitOutranksLaterBlock(ip: string)
    ensures var limit := Command(ActionCommand(RATE_LIMIT, ip, "", 60, 100));
            var block := Command(ActionCommand(BLOCK, ip, "", 300, 0));
            var go := Install(false, false);
            var steps := [limit, go, go] + [block, go, go];
      && Schedule(Start([]), steps)
      && var h := Run(Start([]), steps);
         h.tasks == [LimitTask(ip, 100, false), BlockTask(ip, false)] && Decide(h.chain, ip, {100}) == Accepted
  {
    var go := Install(false, false);
    var block := Command(ActionCommand(BLOCK, ip, "", 300, 0));
    var accept, rate := LimitAccept(ip, 100), LimitTask(ip, 100, false);
    var one := Host([accept, Drop(ip)], {}, Idle, [rate], []);
    var two := Host([accept, Drop(ip), Drop(ip)], {}, Idle, [rate, BlockTask(ip, false)], []);
    assert LimitPutIn(Start([]), ip, 100) == one && BlockPutIn(one, ip, 300, false) == two;
    assert Schedule(two, []) && Run(two, []) == two && Decide(two.chain, ip, {100}) == Accepted;
    hide BlockPutIn, LimitPutIn, Next, Enabled, Schedule, Run, Decide;
    assert [block, go, go] + [] == [block, go, go];
    BlockSteps(one, ip, 300, false, []);
    LimitSteps(Start([]), ip, 60, 100, false, [block, go, go]);
  }

  // A limit can also overtake an older block. A short block that came after it expires, and its
  // cleanup deletes the DROP in front, which was the older block's.
  lemma ExpiryOpensOlderBlock(ip: string)
    ensures var long := Command(ActionCommand(BLOCK, ip, "", 600, 0));
            var limit := Command(ActionCommand(RATE_LIMIT, ip, "", 600, 100));
            var short := Command(ActionCommand(BLOCK, ip, "", 60, 0));
            var go, end := Install(false, false), Clean(2, false, false);
            var steps := [long, go, go] + ([limit, go, go] + ([short, go, go] + [end, end]));
      && Schedule(Start([]), steps)
      && var h := Run(Start([]), steps);
         && h.chain == [LimitAccept(ip, 100), Drop(ip), Drop(ip)]
         && h.tasks == [BlockTask(ip, false), LimitTask(ip, 100, false)]
         && Decide(h.chain, ip, {100}) == Accepted
  {
    var end := Clean(2, false, false);
    var limit := Command(ActionCommand(RATE_LIMIT, ip, "", 600, 100));
    var short := Command(ActionCommand(BLOCK, ip, "", 60, 0));
    var go := Install(false, false);
    var one, two, three, last := ThreeOverlapping(ip);
    hide BlockPutIn, LimitPutIn, BlockTakenOut, Next, Enabled, Schedule, Run, Decide;
    assert [end, end] + [] == [end, end];
    ExpirySteps(three, 2, false, []);
    BlockSteps(two, ip, 60, false, [end, end]);
    LimitSteps(one, ip, 600, 100, false, [short, go, go] + [end, end]);
    BlockSteps(Start([]), ip, 600, false, [limit, go, go] + ([short, go, go] + [end, end]));
  }

  lemma ThreeOverlapping(ip: string) returns (one: Host, two: Host, three: Host, last: Host)
    ensures one == BlockPutIn(Start([]), ip, 600, false) && one.installer.Idle?
    ensures two == LimitPutIn(one, ip, 100) && two.installer.Idle?
    ensures three == BlockPutIn(two, ip, 60, false) && |three.tasks| == 3 && three.tasks[2] == BlockTask(ip, false)
    ensures last == BlockTakenOut(three, 2, false)
    ensures last.chain == [LimitAccept(ip, 100), Drop(ip), Drop(ip)]
    ensures last.tasks == [BlockTask(ip, false), LimitTask(ip, 100, false)]
    ensures Schedule(last, []) && Run(last, []) == last && Decide(last.chain, ip, {100}) == Accepted
  {
    var accept, drop, block, rate := LimitAccept(ip, 100), Drop(ip), BlockTask(ip, false), LimitTask(ip, 100, false);
    one := Host([drop], {}, Idle, [block], []);
    two := Host([drop, accept, drop], {}, Idle, [block, rate], []);
    three := Host([drop, accept, drop, drop], {}, Idle, [block, rate, block], []);
    last := Host([accept, drop, drop], {}, Idle, [block, rate], []);
  }

  // ----- What one command does and its cleanup undoes ---------------------------------------------------

  lemma {:induction false} DeleteLast(chain: seq<FwRule>, r: FwRule)
    requires r !in chain
    ensures DeleteFirst(chain + [r], r) == chain
  {
    if chain == [] {
    } else {
      DeleteLast(chain[1..], r);
      assert (chain + [r])[1..] == chain[1..] + [r];
    }
  }

  // Left alone, a timed BLOCK appends one DROP, and its expiry puts everything back, except for a
  // kernel entry that was made and could not be removed.
  lemma BlockUndone(h: Host, cmd: ActionCommand, active: bool, ok: bool, active': bool, ok': bool)
    requires h.installer.Idle? && cmd.action == BLOCK && cmd.durationSeconds > 0
    requires Drop(cmd.targetIp) !in h.chain && cmd.targetIp !in h.xdp
    ensures var on := Next(Next(Next(h, Command(cmd)), Install(active, ok)), Install(active, ok));
            var n := |h.tasks|;
            var off := Next(Next(on, Clean(n, active', ok')), Clean(n, active', ok'));
      && on.chain == h.chain + [Drop(cmd.targetIp)] && on.tasks == h.tasks + [BlockTask(cmd.targetIp, false)]
      && on.xdp == (if active && ok then h.xdp + {cmd.targetIp} else h.xdp)
      && off == h.(xdp := off.xdp)
      && (off == h <==> !(active && ok) || (active' && ok'))
  {
    DeleteLast(h.chain, Drop(cmd.targetIp));
    var n, t, t' := |h.tasks|, BlockTask(cmd.targetIp, false), BlockTask(cmd.targetIp, true);
    assert (h.tasks + [t])[n := t'] == h.tasks + [t'];
    assert (h.tasks + [t'])[..n] + (h.tasks + [t'])[n + 1..] == h.tasks;
    assert h.xdp + {cmd.targetIp} - {cmd.targetIp} == h.xdp;
    assert h.xdp - {cmd.targetIp} == h.xdp;
  }

  // Left alone, a timed RATE_LIMIT appends a limit-ACCEPT and a DROP, and its expiry removes both.
  lemma RateLimitUndone(h: Host, cmd: ActionCommand)
    requires h.installer.Idle? && cmd.action == RATE_LIMIT && cmd.durationSeconds > 0
    requires Drop(cmd.targetIp) !in h.chain && LimitAccept(cmd.targetIp, cmd.rateLimitPps) !in h.chain
    ensures var accept := LimitAccept(cmd.targetIp, cmd.rateLimitPps);
            var on := Next(Next(Next(h, Command(cmd)), Install(true, true)), Install(true, true));
            var n := |h.tasks|;
      && on.chain == h.chain + [accept, Drop(cmd.targetIp)]
      && on.tasks == h.tasks + [LimitTask(cmd.targetIp, cmd.rateLimitPps, false)]
      && Next(Next(on, Clean(n, true, true)), Clean(n, true, true)) == h
  {
    var ip, pps := cmd.targetIp, cmd.rateLimitPps;
    var accept := LimitAccept(ip, pps);
    assert h.chain + [accept] + [Drop(ip)] == h.chain + [accept, Drop(ip)];
    DeleteInner(h.chain, accept, [Drop(ip)]);
    DeleteLast(h.chain, Drop(ip));
    var n, t, t' := |h.tasks|, LimitTask(ip, pps, false), LimitTask(ip, pps, true);
    assert (h.tasks + [t])[n := t'] == h.tasks + [t'];
    assert (h.tasks + [t'])[..n] + (h.tasks + [t'])[n + 1..] == h.tasks;
  }

  lemma {:induction false} DeleteInner(chain: seq<FwRule>, r: FwRule, rest: seq<FwRule>)
    requires r !in chain
    ensures DeleteFirst(chain + [r] + rest, r) == chain + rest
  {
    var whole := chain + [r] + rest;
    if chain == [] {
      assert whole[1..] == rest;
    } else {
      DeleteInner(chain[1..], r, rest);
      assert whole[1..] == chain[1..] + [r] + rest;
      assert [chain[0]] + (chain[1..] + rest) == chain + rest;
    }
  }

  // ----- Commands without a duration ---------------------------------------------------------------------

  // Left alone, a BLOCK or a RATE_LIMIT without a duration puts in the same rules, and no task to take
  // them out; they are on record as permanent.
  lemma UntimedIsPermanent(h: Host, cmd: ActionCommand, active: bool, ok: bool)
    requires h.installer.Idle? && cmd.action != ALLOW && cmd.durationSeconds == 0
    ensures var on := Next(Next(Next(h, Command(cmd)), Install(active, ok)), Install(active, ok));
            var ip := cmd.targetIp;
            var rules := if cmd.action == BLOCK then [Drop(ip)] else [LimitAccept(ip, cmd.rateLimitPps), Drop(ip)];
            var listed := cmd.action == BLOCK && active && ok;
      on == Host(h.chain + rules, if listed then h.xdp + {ip} else h.xdp, Idle, h.tasks, h.permanent + rules)
  {
    var accept, drop := LimitAccept(cmd.targetIp, cmd.rateLimitPps), Drop(cmd.targetIp);
    assert h.chain + [accept] + [drop] == h.chain + [accept, drop];
  }

  lemma {:induction false} PermanentGrows(h: Host, steps: seq<Step>)
    requires Schedule(h, steps)
    ensures h.permanent <= Run(h, steps).permanent
    decreases |steps|
  {
    if steps == [] {
    } else {
      assert h.permanent <= Next(h, steps[0]).permanent;
      PermanentGrows(Next(h, steps[0]), steps[1..]);
    }
  }

  lemma {:induction false} CountPrefix(chain: seq<FwRule>, more: seq<FwRule>, r: FwRule)
    ensures Count(chain + more, r) == Count(chain, r) + Count(more, r)
  {
    if chain == [] {
      assert chain + more == more;
    } else {
      CountPrefix(chain[1..], more, r);
      assert (chain + more)[1..] == chain[1..] + more;
    }
  }

  lemma {:induction false} ScheduleSplit(h: Host, first: seq<Step>, second: seq<Step>)
    requires Schedule(h, first) && Schedule(Run(h, first), second)
    ensures Schedule(h, first + second) && Run(h, first + second) == Run(Run(h, first), second)
    decreases |first|
  {
    if first == [] {
      assert first + second == second;
    } else {
      ScheduleSplit(Next(h, first[0]), first[1..], second);
      assert (first + second)[1..] == first[1..] + second;
    }
  }

  // And they are never taken out: after any past and in any future, whatever blocks and limits of the
  // same source expire, the chain has each permanent rule as often as it was put in.
  lemma PermanentRulesStay(initial: seq<FwRule>, past: seq<Step>, future: seq<Step>, r: FwRule)
    requires Schedule(Start(initial), past) && Schedule(Run(Start(initial), past), future)
    ensures var earlier := Run(Start(initial), past); var later := Run(earlier, future);
      && Count(later.chain, r) >= Count(earlier.permanent, r)
      && (r in earlier.permanent ==> r in later.chain)
  {
    var earlier := Run(Start(initial), past);
    var later := Run(earlier, future);
    ScheduleSplit(Start(initial), past, future);
    RulesConserved(initial, past + future);
    PermanentGrows(earlier, future);
    var more := later.permanent[|earlier.permanent|..];
    assert later.permanent == earlier.permanent + more;
    CountPrefix(earlier.permanent, more, r);
    CountPositive(earlier.permanent, r);
    CountPositive(later.chain, r);
  }
}
