/** What the whole host does to a packet: the kernel block list first, then the chain. */
module HostVerdict {
  import opened Proto
  import opened Responder
  import opened ResponderOrder
  import opened KernelList
  import opened FirewallVerdict

  // attached: the XDP program is on the interface, so it sees a packet before iptables does.
  function HostDecide(h: Host, attached: bool, ip: string, admits: set<u32>): FwVerdict {
    if attached && ip in h.xdp then Dropped else Decide(h.chain, ip, admits)
  }

  // The host drops the packets of ip at every rate.
  ghost predicate Shut(h: Host, attached: bool, ip: string) {
    forall admits :: HostDecide(h, attached, ip, admits) == Dropped
  }

  lemma ShutIff(h: Host, attached: bool, ip: string)
    ensures Shut(h, attached, ip) <==> (attached && ip in h.xdp) || DropComesFirst(h.chain, ip)
  {
    BlocksCompletelyIff(h.chain, ip);
    if Shut(h, attached, ip) && !(attached && ip in h.xdp) {
      forall admits
        ensures Decide(h.chain, ip, admits) == Dropped
      {
        assert HostDecide(h, attached, ip, admits) == Dropped;
      }
    }
  }

  // ----- When a BLOCK stops its source ---------------------------------------------------------------

  // Decided by the host just before the DROP is appended, whatever has run since the command came in.
  lemma AppendShutsIff(h: Host, attached: bool, active: bool, ok: bool)
    requires h.installer.BlockAppend?
    ensures var ip := h.installer.ip;
      Shut(InstallNext(h, active, ok), attached, ip)
      <==> (attached && ip in h.xdp) || DropComesFirst(h.chain, ip) || !Limited(h.chain, ip)
  {
    ShutIff(InstallNext(h, active, ok), attached, h.installer.ip);
    DropFirstAppend(h.chain, Drop(h.installer.ip), h.installer.ip);
  }

  // Decided before the command, when nothing comes between its steps.
  lemma BlockShutsIff(h: Host, cmd: ActionCommand, attached: bool, active: bool, ok: bool)
    requires h.installer.Idle? && cmd.action == BLOCK
    ensures var ip := cmd.targetIp;
            var on := Next(Next(Next(h, Command(cmd)), Install(active, ok)), Install(active, ok));
      Shut(on, attached, ip)
      <==> (attached && (ip in h.xdp || (active && ok))) || DropComesFirst(h.chain, ip) || !Limited(h.chain, ip)
  {
    hide Shut, DropComesFirst, Limited;
    AppendShutsIff(Next(Next(h, Command(cmd)), Install(active, ok)), attached, active, ok);
  }

  // ----- When a source stays stopped -----------------------------------------------------------------

  // Step s takes the kernel entry of ip out while the chain is open, or opens the chain without an entry.
  predicate Reopens(h: Host, s: Step, attached: bool, ip: string)
    requires Enabled(h, s)
  {
    s.Clean? &&
    if h.tasks[s.task] == BlockTask(ip, false) then s.xdpActive && s.xdpOk && !DropComesFirst(h.chain, ip)
    else !(attached && ip in h.xdp) && OpensUp(h, s, ip)
  }

  lemma ShutStepIff(h: Host, s: Step, attached: bool, ip: string)
    requires Enabled(h, s) && Shut(h, attached, ip)
    ensures Shut(Next(h, s), attached, ip) <==> !Reopens(h, s, attached, ip)
  {
    ShutIff(h, attached, ip);
    ShutIff(Next(h, s), attached, ip);
    if DropComesFirst(h.chain, ip) {
      CompleteBlockIff(h, s, ip);
    }
    hide Shut, DropComesFirst, DeleteFirst, AfterFirstDrop;
  }

  ghost predicate StaysShut(h: Host, steps: seq<Step>, attached: bool, ip: string)
    requires Schedule(h, steps)
    decreases |steps|
  {
    Shut(h, attached, ip) && (steps != [] ==> StaysShut(Next(h, steps[0]), steps[1..], attached, ip))
  }

  ghost predicate NeverReopens(h: Host, steps: seq<Step>, attached: bool, ip: string)
    requires Schedule(h, steps)
    decreases |steps|
  {
    steps != [] ==>
      !Reopens(h, steps[0], attached, ip) && NeverReopens(Next(h, steps[0]), steps[1..], attached, ip)
  }

  // Over whole schedules: a source that is stopped stays so at every moment if and only if no step
  // reopens the host to it.
  lemma {:induction false} StaysShutIff(h: Host, steps: seq<Step>, attached: bool, ip: string)
    requires Schedule(h, steps) && Shut(h, attached, ip)
    ensures StaysShut(h, steps, attached, ip) <==> NeverReopens(h, steps, attached, ip)
    decreases |steps|
  {
    hide Shut, Reopens;
    if steps == [] {
    } else {
      ShutStepIff(h, steps[0], attached, ip);
      if Shut(Next(h, steps[0]), attached, ip) {
        StaysShutIff(Next(h, steps[0]), steps[1..], attached, ip);
      }
    }
  }

  // While no step of a run loses a kernel entry, every installed block stops its source, whatever
  // limits the chain holds.
  lemma {:induction false} KeptEntriesShut(h: Host, steps: seq<Step>)
    requires XdpInSync(h) && Schedule(h, steps) && NeverLosesEntry(h, steps)
    ensures forall ip :: Claimed(Run(h, steps), ip) ==> Shut(Run(h, steps), true, ip)
    decreases |steps|
  {
    if steps == [] {
      assert forall ip | ip in h.xdp :: Shut(h, true, ip);
    } else {
      hide XdpInSync, LosesEntry, Claimed, Shut;
      XdpInSyncIff(h, steps[0]);
      KeptEntriesShut(Next(h, steps[0]), steps[1..]);
    }
  }

  // Otherwise two blocks may not stop a source that is also limited, although XDP is up throughout
  // and every command succeeds: the short block expires and takes the kernel entry with it, and the
  // long block is left with a DROP behind the limit-ACCEPT.
  lemma ExpiryReopensHost(ip: string)
    ensures var limit := Command(ActionCommand(RATE_LIMIT, ip, "", 600, 100));
            var long := Command(ActionCommand(BLOCK, ip, "", 600, 0));
            var short := Command(ActionCommand(BLOCK, ip, "", 60, 0));
            var go, end := Install(true, true), Clean(2, true, true);
            var steps := [limit, go, go] + ([long, go, go] + ([short, go, go] + [end, end]));
      && Schedule(Start([]), steps)
      && var h := Run(Start([]), steps);
         && h.chain == [LimitAccept(ip, 100), Drop(ip), Drop(ip)] && ip !in h.xdp
         && h.tasks == [LimitTask(ip, 100, false), BlockTask(ip, false)]
         && HostDecide(h, true, ip, {100}) == Accepted
  {
    var long := Command(ActionCommand(BLOCK, ip, "", 600, 0));
    var short := Command(ActionCommand(BLOCK, ip, "", 60, 0));
    var go, end := Install(true, true), Clean(2, true, true);
    var one, two, three, last := LimitThenTwoBlocks(ip);
    hide BlockPutIn, LimitPutIn, BlockTakenOut, Next, Enabled, Schedule, Run, HostDecide;
    assert [end, end] + [] == [end, end];
    ExpirySteps(three, 2, true, []);
    BlockSteps(two, ip, 60, true, [end, end]);
    BlockSteps(one, ip, 600, true, [short, go, go] + [end, end]);
    LimitSteps(Start([]), ip, 600, 100, true, [long, go, go] + ([short, go, go] + [end, end]));
  }

  lemma LimitThenTwoBlocks(ip: string) returns (one: Host, two: Host, three: Host, last: Host)
    ensures one == LimitPutIn(Start([]), ip, 100) && one.installer.Idle?
    ensures two == BlockPutIn(one, ip, 600, true) && two.installer.Idle?
    ensures three == BlockPutIn(two, ip, 60, true) && |three.tasks| == 3 && three.tasks[2] == BlockTask(ip, false)
    ensures last == BlockTakenOut(three, 2, true)
    ensures last.chain == [LimitAccept(ip, 100), Drop(ip), Drop(ip)] && last.xdp == {}
    ensures last.tasks == [LimitTask(ip, 100, false), BlockTask(ip, false)]
    ensures Schedule(last, []) && Run(last, []) == last && HostDecide(last, true, ip, {100}) == Accepted
  {
    var accept, drop, block, rate := LimitAccept(ip, 100), Drop(ip), BlockTask(ip, false), LimitTask(ip, 100, false);
    one := LimitPutIn(Start([]), ip, 100);
    two := BlockPutIn(one, ip, 600, true);
    three := BlockPutIn(two, ip, 60, true);
    last := BlockTakenOut(three, 2, true);
    assert three.chain == [accept] + [drop] + [drop, drop] && three.tasks == [rate, block, block];
    DeleteInner([accept], drop, [drop, drop]);
    assert last.chain == [accept] + [drop, drop] && last.tasks == [rate] + [block];
  }

  // ----- Sources that are allowed, or never mentioned -------------------------------------------------

  predicate RuleFor(r: FwRule, ip: string) {
    r == Drop(ip) || (r.LimitAccept? && r.ip == ip)
  }

  // The host holds nothing about ip: no rule, no permanent rule, no task, no install, no kernel entry.
  ghost predicate Clear(h: Host, ip: string) {
    && (forall r | r in h.chain || r in h.permanent :: !RuleFor(r, ip))
    && (forall t | t in h.tasks :: t.ip != ip)
    && (h.installer.Idle? || h.installer.ip != ip)
    && ip !in h.xdp
  }

  // An ALLOW does nothing at all.
  lemma AllowLeavesHost(h: Host, cmd: ActionCommand)
    requires h.installer.Idle? && cmd.action == ALLOW
    ensures Next(h, Command(cmd)) == h
  {
  }

  predicate SparesSource(s: Step, ip: string) {
    s.Command? && s.cmd.targetIp == ip ==> s.cmd.action == ALLOW
  }

  lemma {:induction false} DeleteAddsNothing(chain: seq<FwRule>, r: FwRule)
    ensures forall x | x in DeleteFirst(chain, r) :: x in chain
  {
    if chain == [] || chain[0] == r {
    } else {
      DeleteAddsNothing(chain[1..], r);
    }
  }

  lemma StepStaysClear(h: Host, s: Step, ip: string)
    requires Clear(h, ip) && Enabled(h, s) && SparesSource(s, ip)
    ensures Clear(Next(h, s), ip)
  {
    hide DeleteFirst;
    if s.Clean? {
      DeleteAddsNothing(h.chain, Target(h.tasks[s.task]));
      assert h.tasks[s.task] in h.tasks;
    }
  }

  lemma {:induction false} ClearIsUndecided(chain: seq<FwRule>, ip: string, admits: set<u32>)
    requires forall r | r in chain :: !RuleFor(r, ip)
    ensures Decide(chain, ip, admits) == Undecided
  {
    if chain == [] {
    } else {
      assert chain[0] in chain;
      ClearIsUndecided(chain[1..], ip, admits);
    }
  }

  // In every interleaving, at every moment: a source that commands name only to ALLOW it, or never
  // name, is left alone, and the host decides nothing about its packets.
  lemma {:induction false} SparedSourceStaysClear(h: Host, steps: seq<Step>, ip: string)
    requires Clear(h, ip) && Schedule(h, steps)
    requires forall i | 0 <= i < |steps| :: SparesSource(steps[i], ip)
    ensures Clear(Run(h, steps), ip)
    ensures forall attached, admits :: HostDecide(Run(h, steps), attached, ip, admits) == Undecided
    decreases |steps|
  {
    if steps == [] {
      forall attached, admits
        ensures HostDecide(h, attached, ip, admits) == Undecided
      {
        ClearIsUndecided(h.chain, ip, admits);
      }
    } else {
      hide Clear, HostDecide;
      assert SparesSource(steps[0], ip);
      StepStaysClear(h, steps[0], ip);
      SparedSourceStaysClear(Next(h, steps[0]), steps[1..], ip);
    }
  }

  lemma AllowedSourceIsUndecided(initial: seq<FwRule>, steps: seq<Step>, ip: string)
    requires Schedule(Start(initial), steps) && forall r | r in initial :: !RuleFor(r, ip)
    requires forall i | 0 <= i < |steps| && steps[i].Command? && steps[i].cmd.targetIp == ip ::
      steps[i].cmd.action == ALLOW
    ensures forall attached, admits :: HostDecide(Run(Start(initial), steps), attached, ip, admits) == Undecided
    ensures Clear(Run(Start(initial), steps), ip)
  {
    hide Run, Schedule, HostDecide;
    SparedSourceStaysClear(Start(initial), steps, ip);
  }
}
