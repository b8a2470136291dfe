/** What the order of the firewall chain guarantees: foreign rules are untouched, a finished agent
    leaves no trace, and every limit rule is backed by a later DROP. */
module ResponderOrder {
  import opened Proto
  import opened Responder

  // ----- Foreign rules and restoration -------------------------------------------------------

  function ForeignOnly(chain: seq<FwRule>): seq<FwRule> {
    if chain == [] then []
    else (if chain[0].Foreign? then [chain[0]] else []) + ForeignOnly(chain[1..])
  }

  lemma {:induction false} ForeignAppend(chain: seq<FwRule>, r: FwRule)
    requires !r.Foreign?
    ensures ForeignOnly(chain + [r]) == ForeignOnly(chain)
  {
    if chain == [] {
    } else {
      ForeignAppend(chain[1..], r);
      assert (chain + [r])[1..] == chain[1..] + [r];
    }
  }

  lemma {:induction false} ForeignDelete(chain: seq<FwRule>, r: FwRule)
    requires !r.Foreign?
    ensures ForeignOnly(DeleteFirst(chain, r)) == ForeignOnly(chain)
  {
    if chain == [] || chain[0] == r {
    } else {
      ForeignDelete(chain[1..], r);
    }
  }

  lemma StepKeepsForeign(h: Host, s: Step)
    requires Enabled(h, s)
    ensures ForeignOnly(Next(h, s).chain) == ForeignOnly(h.chain)
  {
    hide ForeignOnly, DeleteFirst;
    match s
    case Command(_) =>
    case Install(_, _) =>
      match h.installer {
        case Idle =>
        case BlockXdp(_, _) =>
        case BlockAppend(ip, _) => ForeignAppend(h.chain, Drop(ip));
        case LimitAppend(ip, _, pps) => ForeignAppend(h.chain, LimitAccept(ip, pps));
        case LimitDrop(ip, _, _) => ForeignAppend(h.chain, Drop(ip));
      }
    case Clean(i, _, _) =>
      ForeignDelete(h.chain, Target(h.tasks[i]));
  }

  // Rules the agent did not write are never lost, added or reordered.
  lemma {:induction false} ForeignRulesKeepOrder(h: Host, steps: seq<Step>)
    requires Schedule(h, steps)
    ensures ForeignOnly(Run(h, steps).chain) == ForeignOnly(h.chain)
    decreases |steps|
  {
    if steps == [] {
    } else {
      StepKeepsForeign(h, steps[0]);
      ForeignRulesKeepOrder(Next(h, steps[0]), steps[1..]);
    }
  }

  ghost predicate NoAgentRules(chain: seq<FwRule>) {
    forall i | 0 <= i < |chain| :: chain[i].Foreign?
  }

  lemma {:induction false} AllForeign(chain: seq<FwRule>)
    requires NoAgentRules(chain)
    ensures ForeignOnly(chain) == chain
  {
    if chain == [] {
    } else {
      AllForeign(chain[1..]);
    }
  }

  predicate Quiescent(h: Host) {
    h.installer.Idle? && h.tasks == []
  }

  // Once every command has finished and every task has run, only permanent rules remain.
  lemma RestoredExactly(initial: seq<FwRule>, steps: seq<Step>)
    requires NoAgentRules(initial) && Schedule(Start(initial), steps)
    requires Quiescent(Run(Start(initial), steps)) && Run(Start(initial), steps).permanent == []
    ensures Run(Start(initial), steps).chain == initial
  {
    var h := Run(Start(initial), steps);
    RulesConserved(initial, steps);
    forall i | 0 <= i < |h.chain|
      ensures h.chain[i].Foreign?
    {
      var r := h.chain[i];
      CountPositive(h.chain, r);
      CountPositive(initial, r);
      assert Count(h.permanent, r) == 0;
    }
    AllForeign(h.chain);
    AllForeign(initial);
    ForeignRulesKeepOrder(Start(initial), steps);
  }

  // Commands with a duration never leave a permanent rule behind.
  predicate Timed(s: Step) {
    s.Command? ==> s.cmd.durationSeconds > 0
  }

  predicate TimedInstaller(i: Installer) {
    i.Idle? || i.duration > 0
  }

  lemma {:induction false} TimedCommandsLeaveNothing(h: Host, steps: seq<Step>)
    requires Schedule(h, steps) && TimedInstaller(h.installer)
    requires forall i | 0 <= i < |steps| :: Timed(steps[i])
    ensures Run(h, steps).permanent == h.permanent
    decreases |steps|
  {
    if steps == [] {
    } else {
      assert Timed(steps[0]);
      TimedCommandsLeaveNothing(Next(h, steps[0]), steps[1..]);
    }
  }

  // ----- Overlapping blocks --------------------------------------------------------------------

  // While any block of ip is outstanding, timed or permanent, the chain holds a DROP for ip.
  lemma OutstandingBlockDrops(initial: seq<FwRule>, steps: seq<Step>, ip: string)
    requires Schedule(Start(initial), steps)
    ensures var h := Run(Start(initial), steps);
      (exists i | 0 <= i < |h.tasks| :: h.tasks[i].ip == ip) || Drop(ip) in h.permanent ==> Drop(ip) in h.chain
  {
    var h := Run(Start(initial), steps);
    RulesConserved(initial, steps);
    CountPositive(h.chain, Drop(ip));
    CountPositive(h.permanent, Drop(ip));
    if i :| 0 <= i < |h.tasks| && h.tasks[i].ip == ip {
      OwedAt(h.tasks, i, h.tasks[i], Drop(ip));
    }
  }

  // ----- Commands and expiries that are not interrupted, for building histories -----------------------

  lemma RunCons(h: Host, s: Step, rest: seq<Step>)
    requires Enabled(h, s) && Schedule(Next(h, s), rest)
    ensures Schedule(h, [s] + rest) && Run(h, [s] + rest) == Run(Next(h, s), rest)
  {
  }

  lemma RunThree(h: Host, a: Step, b: Step, c: Step, rest: seq<Step>)
    requires Enabled(h, a) && Enabled(Next(h, a), b) && Enabled(Next(Next(h, a), b), c)
    requires Schedule(Next(Next(Next(h, a), b), c), rest)
    ensures Schedule(h, [a, b, c] + rest) && Run(h, [a, b, c] + rest) == Run(Next(Next(Next(h, a), b), c), rest)
  {
    hide Next, Enabled, Schedule, Run;
    RunCons(Next(Next(h, a), b), c, rest);
    RunCons(Next(h, a), b, [c] + rest);
    RunCons(h, a, [b] + ([c] + rest));
    assert [a] + ([b] + ([c] + rest)) == [a, b, c] + rest;
  }

  // up: XDP is active and bpftool succeeds.
  function BlockPutIn(h: Host, ip: string, duration: u32, up: bool): Host {
    var h' := h.(chain := h.chain + [Drop(ip)], xdp := if up then h.xdp + {ip} else h.xdp);
    if duration > 0 then h'.(tasks := h.tasks + [BlockTask(ip, false)]) else h'.(permanent := h.permanent + [Drop(ip)])
  }

  lemma BlockSteps(h: Host, ip: string, duration: u32, up: bool, rest: seq<Step>)
    requires h.installer.Idle? && Schedule(BlockPutIn(h, ip, duration, up), rest)
    ensures var steps := [Command(ActionCommand(BLOCK, ip, "", duration, 0)), Install(up, up), Install(up, up)] + rest;
      Schedule(h, steps) && Run(h, steps) == Run(BlockPutIn(h, ip, duration, up), rest)
  {
    hide Schedule, Run;
    RunThree(h, Command(ActionCommand(BLOCK, ip, "", duration, 0)), Install(up, up), Install(up, up), rest);
  }

  function LimitPutIn(h: Host, ip: string, pps: u32): Host {
    h.(chain := h.chain + [LimitAccept(ip, pps)] + [Drop(ip)], tasks := h.tasks + [LimitTask(ip, pps, false)])
  }

  lemma LimitSteps(h: Host, ip: string, duration: u32, pps: u32, up: bool, rest: seq<Step>)
    requires h.installer.Idle? && duration > 0 && Schedule(LimitPutIn(h, ip, pps), rest)
    ensures var limit := Command(ActionCommand(RATE_LIMIT, ip, "", duration, pps));
            var steps := [limit, Install(up, up), Install(up, up)] + rest;
      Schedule(h, steps) && Run(h, steps) == Run(LimitPutIn(h, ip, pps), rest)
  {
    hide Schedule, Run;
    RunThree(h, Command(ActionCommand(RATE_LIMIT, ip, "", duration, pps)), Install(up, up), Install(up, up), rest);
  }

  function BlockTakenOut(h: Host, i: nat, up: bool): Host
    requires i < |h.tasks|
  {
    var ip := h.tasks[i].ip;
    h.(chain := DeleteFirst(h.chain, Drop(ip)), xdp := if up then h.xdp - {ip} else h.xdp,
       tasks := h.tasks[..i] + h.tasks[i + 1..])
  }

  lemma ExpirySteps(h: Host, i: nat, up: bool, rest: seq<Step>)
    requires i < |h.tasks| && h.tasks[i] == BlockTask(h.tasks[i].ip, false) && Schedule(BlockTakenOut(h, i, up), rest)
    ensures var steps := [Clean(i, up, up), Clean(i, up, up)] + rest;
      Schedule(h, steps) && Run(h, steps) == Run(BlockTakenOut(h, i, up), rest)
  {
    var half := Next(h, Clean(i, up, up));
    assert half.tasks[..i] == h.tasks[..i] && half.tasks[i + 1..] == h.tasks[i + 1..];
    assert Next(half, Clean(i, up, up)) == BlockTakenOut(h, i, up);
    hide Schedule, Run, Next, DeleteFirst;
    RunCons(half, Clean(i, up, up), rest);
    RunCons(h, Clean(i, up, up), [Clean(i, up, up)] + rest);
    assert [Clean(i, up, up)] + ([Clean(i, up, up)] + rest) == [Clean(i, up, up), Clean(i, up, up)] + rest;
  }

  // ----- Every limit rule is followed by a DROP -------------------------------------------------

  function Weight(r: FwRule, ip: string): int {
    match r
    case Drop(x) => if x == ip then 1 else 0
    case LimitAccept(x, _) => if x == ip then -1 else 0
    case Foreign(_) => 0
  }

  // DROPs minus limit-ACCEPTs for ip.
  function Balance(chain: seq<FwRule>, ip: string): int {
    if chain == [] then 0 else Weight(chain[0], ip) + Balance(chain[1..], ip)
  }

  // Every tail of the chain has, up to debt, a DROP for each of its limit-ACCEPTs.
  predicate Covered(chain: seq<FwRule>, ip: string, debt: nat) {
    Balance(chain, ip) + debt >= 0 && (chain != [] ==> Covered(chain[1..], ip, debt))
  }

  // One while the first half of a rate limit for ip is in place and the second is not.
  function Debt(i: Installer, ip: string): nat {
    if i.LimitDrop? && i.ip == ip then 1 else 0
  }

  // Tasks for which a DROP stands without a matching limit-ACCEPT.
  function Surplus(tasks: seq<Task>, ip: string): nat {
    if tasks == [] then 0
    else (if tasks[0].ip == ip && (tasks[0].BlockTask? || tasks[0].acceptDeleted) then 1 else 0)
         + Surplus(tasks[1..], ip)
  }

  lemma {:induction false} BalanceAppend(chain: seq<FwRule>, r: FwRule, ip: string)
    ensures Balance(chain + [r], ip) == Balance(chain, ip) + Weight(r, ip)
  {
    if chain == [] {
      assert Balance([r], ip) == Weight(r, ip) + Balance([], ip);
    } else {
      BalanceAppend(chain[1..], r, ip);
      assert (chain + [r])[1..] == chain[1..] + [r];
    }
  }

  lemma {:induction false} BalanceDelete(chain: seq<FwRule>, r: FwRule, ip: string)
    ensures Balance(DeleteFirst(chain, r), ip) == Balance(chain, ip) - (if r in chain then Weight(r, ip) else 0)
  {
    if chain == [] || chain[0] == r {
    } else {
      BalanceDelete(chain[1..], r, ip);
    }
  }

  lemma {:induction false} CoveredAppend(chain: seq<FwRule>, r: FwRule, ip: string, debt: nat, debt': nat)
    requires Covered(chain, ip, debt) && debt' >= debt - Weight(r, ip)
    ensures Covered(chain + [r], ip, debt')
  {
    BalanceAppend(chain, r, ip);
    if chain == [] {
      assert [r][1..] == [];
    } else {
      CoveredAppend(chain[1..], r, ip, debt, debt');
      assert (chain + [r])[1..] == chain[1..] + [r];
    }
  }

  // Deleting the first DROP keeps every tail covered as long as the whole chain has one to spare,
  // whichever block or limit that DROP was written for.
  lemma {:induction false} CoveredDelete(chain: seq<FwRule>, r: FwRule, ip: string, debt: nat)
    requires Covered(chain, ip, debt)
    requires Weight(r, ip) > 0 ==> Balance(chain, ip) + debt >= 1
    ensures Covered(DeleteFirst(chain, r), ip, debt)
  {
    if chain == [] || chain[0] == r {
    } else {
      BalanceDelete(chain, r, ip);
      CoveredDelete(chain[1..], r, ip, debt);
    }
  }

  lemma {:induction false} SurplusAppend(tasks: seq<Task>, t: Task, ip: string)
    ensures Surplus(tasks + [t], ip) == Surplus(tasks, ip) + Surplus([t], ip)
  {
    if tasks == [] {
      assert tasks + [t] == [t];
    } else {
      SurplusAppend(tasks[1..], t, ip);
      assert (tasks + [t])[1..] == tasks[1..] + [t];
    }
  }

  lemma {:induction false} SurplusAt(tasks: seq<Task>, i: nat, t: Task, ip: string)
    requires i < |tasks|
    ensures Surplus(tasks, ip) == Surplus(tasks[..i] + tasks[i + 1..], ip) + Surplus([tasks[i]], ip)
    ensures Surplus(tasks[i := t], ip) == Surplus(tasks[..i] + tasks[i + 1..], ip) + Surplus([t], ip)
  {
    var without := tasks[..i] + tasks[i + 1..];
    if i == 0 {
      assert without == tasks[1..];
    } else {
      SurplusAt(tasks[1..], i - 1, t, ip);
      assert without[1..] == tasks[1..][..i - 1] + tasks[1..][i..];
      assert tasks[i := t][1..] == tasks[1..][i - 1 := t];
    }
  }

  ghost predicate Backed(h: Host, ip: string) {
    && Covered(h.chain, ip, Debt(h.installer, ip))
    && Balance(h.permanent, ip) >= 0
    && Balance(h.chain, ip) + Debt(h.installer, ip) == Surplus(h.tasks, ip) + Balance(h.permanent, ip)
  }

  lemma InstallKeepsBacked(h: Host, active: bool, ok: bool, ip: string)
    requires Backed(h, ip)
    ensures Backed(InstallNext(h, active, ok), ip)
  {
    hide Balance, Covered, Surplus;
    match h.installer
    case Idle =>
    case BlockXdp(_, _) =>
    case BlockAppend(x, _) =>
      BalanceAppend(h.chain, Drop(x), ip);
      BalanceAppend(h.permanent, Drop(x), ip);
      CoveredAppend(h.chain, Drop(x), ip, 0, 0);
      SurplusAppend(h.tasks, BlockTask(x, false), ip);
      SurplusOne(BlockTask(x, false), ip);
    case LimitAppend(x, duration, pps) =>
      BalanceAppend(h.chain, LimitAccept(x, pps), ip);
      CoveredAppend(h.chain, LimitAccept(x, pps), ip, 0, Debt(LimitDrop(x, duration, pps), ip));
    case LimitDrop(x, _, pps) =>
      BalanceAppend(h.chain, Drop(x), ip);
      BalanceAppend(h.permanent, LimitAccept(x, pps), ip);
      BalanceAppend(h.permanent + [LimitAccept(x, pps)], Drop(x), ip);
      assert h.permanent + [LimitAccept(x, pps)] + [Drop(x)] == h.permanent + [LimitAccept(x, pps), Drop(x)];
      CoveredAppend(h.chain, Drop(x), ip, Debt(h.installer, ip), 0);
      SurplusAppend(h.tasks, LimitTask(x, pps, false), ip);
      SurplusOne(LimitTask(x, pps, false), ip);
  }

  lemma SurplusOne(t: Task, ip: string)
    ensures Surplus([t], ip) == if t.ip == ip && (t.BlockTask? || t.acceptDeleted) then 1 else 0
  {
  }

  lemma CleanKeepsBacked(h: Host, i: nat, active: bool, ok: bool, ip: string)
    requires i < |h.tasks| && Backed(h, ip) && Target(h.tasks[i]) in h.chain
    ensures Backed(CleanNext(h, i, active, ok), ip)
  {
    hide Balance, Covered, Surplus, DeleteFirst;
    var t := h.tasks[i];
    var t' := if t.BlockTask? then BlockTask(t.ip, true) else LimitTask(t.ip, t.pps, true);
    SurplusAt(h.tasks, i, t', ip);
    SurplusOne(t, ip);
    SurplusOne(t', ip);
    if t != BlockTask(t.ip, false) {
      BalanceDelete(h.chain, Target(t), ip);
      CoveredDelete(h.chain, Target(t), ip, Debt(h.installer, ip));
    }
  }

  lemma {:induction false} RunKeepsBacked(initial: seq<FwRule>, h: Host, steps: seq<Step>, ip: string)
    requires Backed(h, ip) && AllConserved(initial, h) && Schedule(h, steps)
    ensures Backed(Run(h, steps), ip)
    decreases |steps|
  {
    if steps == [] {
    } else {
      match steps[0] {
        case Command(_) =>
        case Install(active, ok) => InstallKeepsBacked(h, active, ok, ip);
        case Clean(i, active, ok) =>
          assert Conserved(initial, h, Target(h.tasks[i]));
          TargetPresent(initial, h, i);
          CleanKeepsBacked(h, i, active, ok, ip);
      }
      StepConserves(initial, h, steps[0]);
      RunKeepsBacked(initial, Next(h, steps[0]), steps[1..], ip);
    }
  }

  lemma {:induction false} CleanChainCovered(chain: seq<FwRule>, ip: string)
    requires NoAgentRules(chain)
    ensures Balance(chain, ip) == 0 && Covered(chain, ip, 0)
  {
    if chain == [] {
    } else {
      CleanChainCovered(chain[1..], ip);
    }
  }

  lemma {:induction false} CoveredTail(chain: seq<FwRule>, ip: string, debt: nat, i: nat)
    requires Covered(chain, ip, debt) && i <= |chain|
    ensures Balance(chain[i..], ip) + debt >= 0
  {
    if i == 0 {
    } else {
      CoveredTail(chain[1..], ip, debt, i - 1);
      assert chain[1..][i - 1..] == chain[i..];
    }
  }

  // A chain without a DROP for ip has a balance no higher than minus its limit-ACCEPTs.
  lemma {:induction false} NoDropMeansDebt(chain: seq<FwRule>, ip: string)
    requires Drop(ip) !in chain
    ensures Balance(chain, ip) <= 0
    ensures (exists i | 0 <= i < |chain| :: chain[i].LimitAccept? && chain[i].ip == ip) ==> Balance(chain, ip) <= -1
  {
    if chain == [] {
    } else {
      NoDropMeansDebt(chain[1..], ip);
      if i :| 1 <= i < |chain| && chain[i].LimitAccept? && chain[i].ip == ip {
        assert chain[1..][i - 1] == chain[i];
      }
    }
  }

  // In every reachable state a limit-ACCEPT is followed by a DROP for the same source, unless it
  // is the one being installed: then the installer is between its two appends for that source,
  // and no other limit-ACCEPT for the source comes after it.
  lemma LimitsAreBacked(initial: seq<FwRule>, steps: seq<Step>, i: nat)
    requires NoAgentRules(initial) && Schedule(Start(initial), steps)
    requires i < |Run(Start(initial), steps).chain| && Run(Start(initial), steps).chain[i].LimitAccept?
    ensures var h := Run(Start(initial), steps); var ip := h.chain[i].ip;
      || (exists j | i < j < |h.chain| :: h.chain[j] == Drop(ip))
      || (&& h.installer.LimitDrop? && h.installer.ip == ip
          && forall j | i < j < |h.chain| :: !(h.chain[j].LimitAccept? && h.chain[j].ip == ip))
  {
    var h := Run(Start(initial), steps);
    var ip := h.chain[i].ip;
    CleanChainCovered(initial, ip);
    RunKeepsBacked(initial, Start(initial), steps, ip);
    CoveredTail(h.chain, ip, Debt(h.installer, ip), i);
    var tail := h.chain[i + 1..];
    assert h.chain[i..] == [h.chain[i]] + tail;
    if Drop(ip) in tail {
      var k :| 0 <= k < |tail| && tail[k] == Drop(ip);
      assert h.chain[i + 1 + k] == Drop(ip);
    } else {
      NoDropMeansDebt(tail, ip);
      forall j | i < j < |h.chain|
        ensures !(h.chain[j].LimitAccept? && h.chain[j].ip == ip)
      {
        assert h.chain[j] == tail[j - i - 1];
      }
    }
  }
}
