/** How the kernel block list that XDP consults follows the blocks the agent has outstanding. */
module KernelList {
  import opened Proto
  import opened Responder
  import opened ResponderOrder

  // A source whose kernel entry is due: its block has been put in and not yet begun to expire.
  // Every permanent limit adds a limit-ACCEPT and a DROP, so a positive balance is a permanent block.
  ghost predicate Claimed(h: Host, ip: string) {
    || (h.installer.BlockAppend? && h.installer.ip == ip)
    || BlockTask(ip, false) in h.tasks
    || Balance(h.permanent, ip) >= 1
  }

  // The same, without counting task i.
  ghost predicate ClaimedBesides(h: Host, i: nat, ip: string) {
    || (h.installer.BlockAppend? && h.installer.ip == ip)
    || (exists j | 0 <= j < |h.tasks| :: j != i && h.tasks[j] == BlockTask(ip, false))
    || Balance(h.permanent, ip) >= 1
  }

  lemma ClaimedAfterInstall(h: Host, active: bool, ok: bool, ip: string)
    ensures var h' := InstallNext(h, active, ok); var starting := h.installer.BlockXdp? && h.installer.ip == ip;
      && (Claimed(h', ip) ==> Claimed(h, ip) || starting)
      && ((Claimed(h, ip) && Balance(h.permanent, ip) >= 0) || starting ==> Claimed(h', ip))
      && (Balance(h.permanent, ip) >= 0 ==> Balance(h'.permanent, ip) >= 0)
  {
    hide Balance;
    match h.installer
    case Idle =>
    case BlockXdp(_, _) =>
    case BlockAppend(x, _) => BalanceAppend(h.permanent, Drop(x), ip);
    case LimitAppend(_, _, _) =>
    case LimitDrop(x, _, pps) =>
      BalanceAppend(h.permanent, LimitAccept(x, pps), ip);
      BalanceAppend(h.permanent + [LimitAccept(x, pps)], Drop(x), ip);
      assert h.permanent + [LimitAccept(x, pps)] + [Drop(x)] == h.permanent + [LimitAccept(x, pps), Drop(x)];
  }

  lemma ClaimedAfterClean(h: Host, i: nat, active: bool, ok: bool, ip: string)
    requires i < |h.tasks|
    ensures Claimed(CleanNext(h, i, active, ok), ip)
            <==> if h.tasks[i] == BlockTask(ip, false) then ClaimedBesides(h, i, ip) else Claimed(h, ip)
  {
    hide Balance, DeleteFirst;
    var tasks' := CleanNext(h, i, active, ok).tasks;
    var t := h.tasks[i];
    if (t.BlockTask? && t.unblocked) || (t.LimitTask? && t.acceptDeleted) {
      assert h.tasks == h.tasks[..i] + [t] + h.tasks[i + 1..];
    } else {
      forall j | 0 <= j < |h.tasks| && j != i
        ensures tasks'[j] == h.tasks[j]
      {
      }
    }
  }

  // ----- No entry is missing -------------------------------------------------------------------------

  ghost predicate XdpInSync(h: Host) {
    forall ip :: Claimed(h, ip) ==> ip in h.xdp
  }

  // Step s expires one block while another block of the same source stands, or puts in a block
  // whose kernel entry cannot be made.
  ghost predicate LosesEntry(h: Host, s: Step)
    requires Enabled(h, s)
  {
    match s
    case Command(_) => false
    case Install(active, ok) => h.installer.BlockXdp? && !(active && ok) && h.installer.ip !in h.xdp
    case Clean(i, active, ok) =>
      active && ok && h.tasks[i] == BlockTask(h.tasks[i].ip, false) && ClaimedBesides(h, i, h.tasks[i].ip)
  }

  // One step, whatever XDP and bpftool answer.
  lemma XdpInSyncIff(h: Host, s: Step)
    requires XdpInSync(h) && Enabled(h, s)
    ensures XdpInSync(Next(h, s)) <==> !LosesEntry(h, s)
  {
    hide Balance, DeleteFirst;
    var h' := Next(h, s);
    match s
    case Command(_) =>
      assert forall ip :: Claimed(h', ip) ==> Claimed(h, ip);
    case Install(active, ok) =>
      forall ip
        ensures Claimed(h', ip) ==> Claimed(h, ip) || (h.installer.BlockXdp? && h.installer.ip == ip)
        ensures h.installer.BlockXdp? && h.installer.ip == ip ==> Claimed(h', ip)
      {
        ClaimedAfterInstall(h, active, ok, ip);
      }
      hide Claimed;
    case Clean(i, active, ok) =>
      forall ip
        ensures Claimed(h', ip)
            <==> if h.tasks[i] == BlockTask(ip, false) then ClaimedBesides(h, i, ip) else Claimed(h, ip)
      {
        ClaimedAfterClean(h, i, active, ok, ip);
      }
      if h.tasks[i] == BlockTask(h.tasks[i].ip, false) {
        assert Claimed(h, h.tasks[i].ip);
      }
      hide Claimed, ClaimedBesides;
  }

  ghost predicate AlwaysInSync(h: Host, steps: seq<Step>)
    requires Schedule(h, steps)
    decreases |steps|
  {
    XdpInSync(h) && (steps != [] ==> AlwaysInSync(Next(h, steps[0]), steps[1..]))
  }

  ghost predicate NeverLosesEntry(h: Host, steps: seq<Step>)
    requires Schedule(h, steps)
    decreases |steps|
  {
    steps != [] ==> !LosesEntry(h, steps[0]) && NeverLosesEntry(Next(h, steps[0]), steps[1..])
  }

  // Over whole schedules: every block has its entry at every moment if and only if no step loses one.
  lemma {:induction false} AlwaysInSyncIff(h: Host, steps: seq<Step>)
    requires XdpInSync(h) && Schedule(h, steps)
    ensures AlwaysInSync(h, steps) <==> NeverLosesEntry(h, steps)
    decreases |steps|
  {
    hide XdpInSync, LosesEntry;
    if steps == [] {
    } else {
      XdpInSyncIff(h, steps[0]);
      if XdpInSync(Next(h, steps[0])) {
        AlwaysInSyncIff(Next(h, steps[0]), steps[1..]);
      }
    }
  }

  // Two overlapping blocks are enough: the long one loses its entry when the short one expires, and
  // from then on only its DROP in the chain stands for it.
  lemma OverlapLosesXdpEntry(ip: string)
    ensures var long := Command(ActionCommand(BLOCK, ip, "", 600, 0));
            var short := Command(ActionCommand(BLOCK, ip, "", 60, 0));
            var go := Install(true, true);
            var end := Clean(1, true, true);
            var steps := [long, go, go] + ([short, go, go] + [end, end]);
      && Schedule(Start([]), steps)
      && var h := Run(Start([]), steps);
         h.tasks == [BlockTask(ip, false)] && ip !in h.xdp && h.chain == [Drop(ip)]
  {
    var go, end := Install(true, true), Clean(1, true, true);
    var short := Command(ActionCommand(BLOCK, ip, "", 60, 0));
    var block := BlockTask(ip, false);
    var one := Host([Drop(ip)], {ip}, Idle, [block], []);
    var two := Host([Drop(ip), Drop(ip)], {ip}, Idle, [block, block], []);
    assert BlockPutIn(Start([]), ip, 600, true) == one && BlockPutIn(one, ip, 60, true) == two;
    var last := Host([Drop(ip)], {}, Idle, [block], []);
    assert BlockTakenOut(two, 1, true) == last;
    assert Schedule(last, []) && Run(last, []) == last;
    hide BlockPutIn, BlockTakenOut, Next, Enabled, Schedule, Run;
    assert [end, end] + [] == [end, end];
    ExpirySteps(two, 1, true, []);
    BlockSteps(one, ip, 60, true, [end, end]);
    BlockSteps(Start([]), ip, 600, true, [short, go, go] + [end, end]);
  }

  // A permanent block loses its entry to a timed one in the same way, with no task left to run.
  lemma PermanentLosesXdpEntry(ip: string)
    ensures var forever := Command(ActionCommand(BLOCK, ip, "", 0, 0));
            var short := Command(ActionCommand(BLOCK, ip, "", 60, 0));
            var go := Install(true, true);
            var end := Clean(0, true, true);
            var steps := [forever, go, go] + ([short, go, go] + [end, end]);
      && Schedule(Start([]), steps)
      && Run(Start([]), steps) == Host([Drop(ip)], {}, Idle, [], [Drop(ip)])
      && !XdpInSync(Run(Start([]), steps))
  {
    var go, end := Install(true, true), Clean(0, true, true);
    var short := Command(ActionCommand(BLOCK, ip, "", 60, 0));
    var one := Host([Drop(ip)], {ip}, Idle, [], [Drop(ip)]);
    var two := Host([Drop(ip), Drop(ip)], {ip}, Idle, [BlockTask(ip, false)], [Drop(ip)]);
    var last := Host([Drop(ip)], {}, Idle, [], [Drop(ip)]);
    assert BlockPutIn(Start([]), ip, 0, true) == one && BlockPutIn(one, ip, 60, true) == two;
    assert BlockTakenOut(two, 0, true) == last;
    assert last.permanent == [] + [Drop(ip)];
    BalanceAppend([], Drop(ip), ip);
    assert Claimed(last, ip);
    assert Schedule(last, []) && Run(last, []) == last;
    hide BlockPutIn, BlockTakenOut, Claimed, Balance, Next, Enabled, Schedule, Run;
    assert [end, end] + [] == [end, end];
    ExpirySteps(two, 0, true, []);
    BlockSteps(one, ip, 60, true, [end, end]);
    BlockSteps(Start([]), ip, 0, true, [short, go, go] + [end, end]);
  }

  // ----- No entry is left behind -----------------------------------------------------------------------

  ghost predicate NoStrayEntry(h: Host) {
    forall ip :: Balance(h.permanent, ip) >= 0 && (ip in h.xdp ==> Claimed(h, ip))
  }

  // Step s begins to expire the only block of a source and fails to take its entry out.
  ghost predicate Leaks(h: Host, s: Step)
    requires Enabled(h, s)
  {
    s.Clean? && !(s.xdpActive && s.xdpOk) && h.tasks[s.task] == BlockTask(h.tasks[s.task].ip, false)
    && h.tasks[s.task].ip in h.xdp && !ClaimedBesides(h, s.task, h.tasks[s.task].ip)
  }

  lemma NoStrayEntryIff(h: Host, s: Step)
    requires NoStrayEntry(h) && Enabled(h, s)
    ensures NoStrayEntry(Next(h, s)) <==> !Leaks(h, s)
  {
    hide Balance, DeleteFirst;
    var h' := Next(h, s);
    match s
    case Command(_) =>
      assert forall ip :: Claimed(h, ip) ==> Claimed(h', ip);
    case Install(active, ok) =>
      forall ip
        ensures Claimed(h, ip) || (h.installer.BlockXdp? && h.installer.ip == ip) ==> Claimed(h', ip)
        ensures Balance(h'.permanent, ip) >= 0
      {
        ClaimedAfterInstall(h, active, ok, ip);
      }
      hide Claimed;
    case Clean(i, active, ok) =>
      forall ip
        ensures Claimed(h', ip)
            <==> if h.tasks[i] == BlockTask(ip, false) then ClaimedBesides(h, i, ip) else Claimed(h, ip)
      {
        ClaimedAfterClean(h, i, active, ok, ip);
      }
      hide Claimed, ClaimedBesides;
  }

  ghost predicate NeverStray(h: Host, steps: seq<Step>)
    requires Schedule(h, steps)
    decreases |steps|
  {
    NoStrayEntry(h) && (steps != [] ==> NeverStray(Next(h, steps[0]), steps[1..]))
  }

  ghost predicate NeverLeaks(h: Host, steps: seq<Step>)
    requires Schedule(h, steps)
    decreases |steps|
  {
    steps != [] ==> !Leaks(h, steps[0]) && NeverLeaks(Next(h, steps[0]), steps[1..])
  }

  // Over whole schedules: every entry belongs to a block at every moment if and only if no step leaks one.
  lemma {:induction false} NeverStrayIff(h: Host, steps: seq<Step>)
    requires NoStrayEntry(h) && Schedule(h, steps)
    ensures NeverStray(h, steps) <==> NeverLeaks(h, steps)
    decreases |steps|
  {
    hide NoStrayEntry, Leaks;
    if steps == [] {
    } else {
      NoStrayEntryIff(h, steps[0]);
      if NoStrayEntry(Next(h, steps[0])) {
        NeverStrayIff(Next(h, steps[0]), steps[1..]);
      }
    }
  }

  lemma {:induction false} NeverStrayAtEnd(h: Host, steps: seq<Step>)
    requires Schedule(h, steps) && NeverStray(h, steps)
    ensures NoStrayEntry(Run(h, steps))
    decreases |steps|
  {
    hide NoStrayEntry;
    if steps == [] {
    } else {
      NeverStrayAtEnd(Next(h, steps[0]), steps[1..]);
    }
  }

  // With neither failure on the way, the kernel list is exactly the set of sources with a claim.
  lemma {:induction false} ListIsExact(h: Host, steps: seq<Step>)
    requires XdpInSync(h) && NoStrayEntry(h) && Schedule(h, steps)
    requires NeverLosesEntry(h, steps) && NeverLeaks(h, steps)
    ensures forall ip :: ip in Run(h, steps).xdp <==> Claimed(Run(h, steps), ip)
    decreases |steps|
  {
    if steps == [] {
    } else {
      hide XdpInSync, NoStrayEntry, LosesEntry, Leaks;
      XdpInSyncIff(h, steps[0]);
      NoStrayEntryIff(h, steps[0]);
      ListIsExact(Next(h, steps[0]), steps[1..]);
    }
  }

  // Every expiry that touches the kernel list succeeds.
  predicate CleansSucceed(steps: seq<Step>) {
    forall i | 0 <= i < |steps| && steps[i].Clean? :: steps[i].xdpActive && steps[i].xdpOk
  }

  lemma {:induction false} SuccessNeverLeaks(h: Host, steps: seq<Step>)
    requires Schedule(h, steps) && CleansSucceed(steps)
    ensures NeverLeaks(h, steps)
    decreases |steps|
  {
    if steps == [] {
    } else {
      SuccessNeverLeaks(Next(h, steps[0]), steps[1..]);
    }
  }

  // Once everything has finished, the kernel list holds permanent blocks only, so nothing at all if
  // there are none. Sources may have been added with XDP up or down, in any interleaving.
  lemma XdpRestored(initial: seq<FwRule>, steps: seq<Step>)
    requires Schedule(Start(initial), steps) && Quiescent(Run(Start(initial), steps))
    requires NeverLeaks(Start(initial), steps)
    ensures var h := Run(Start(initial), steps);
      && (forall ip | ip in h.xdp :: Balance(h.permanent, ip) >= 1)
      && (h.permanent == [] ==> h.xdp == {})
  {
    hide Schedule, Run, NeverLeaks, NeverStray;
    NeverStrayIff(Start(initial), steps);
    NeverStrayAtEnd(Start(initial), steps);
    var h := Run(Start(initial), steps);
    assert forall ip | ip in h.xdp :: Claimed(h, ip);
  }

  // A removal that fails is not tried again: the chain is as it was, nothing is outstanding, and the
  // source stays in the kernel list.
  lemma FailedRemovalLeaks(ip: string)
    ensures var block := Command(ActionCommand(BLOCK, ip, "", 60, 0));
            var steps := [block, Install(true, true), Install(true, true), Clean(0, true, false), Clean(0, true, true)];
      Schedule(Start([]), steps) && Run(Start([]), steps) == Start([]).(xdp := {ip})
  {
    var block := Command(ActionCommand(BLOCK, ip, "", 60, 0));
    var go, fail, end := Install(true, true), Clean(0, true, false), Clean(0, true, true);
    var h0 := Start([]);
    var h1 := Next(h0, block);
    var h2 := Next(h1, go);
    var h3 := Next(h2, go);
    var h4 := Next(h3, fail);
    var h5 := Next(h4, end);
    assert h3 == Host([Drop(ip)], {ip}, Idle, [BlockTask(ip, false)], []);
    assert h4 == Host([Drop(ip)], {ip}, Idle, [BlockTask(ip, true)], []);
    assert h5 == Start([]).(xdp := {ip});
    hide Next;
    RunCons(h4, end, []);
    RunCons(h3, fail, [end]);
    RunCons(h2, go, [fail, end]);
    RunCons(h1, go, [go, fail, end]);
    RunCons(h0, block, [go, go, fail, end]);
  }
}
