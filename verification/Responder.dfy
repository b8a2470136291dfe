/** The agent's mitigation lifecycle on Linux: rules are appended on command and taken away by
    delayed cleanup tasks that run concurrently with each other and with later commands. */
module Responder {
  import opened Proto

  // The INPUT chain. Foreign stands for any rule the agent does not write.
  datatype FwRule = Drop(ip: string) | LimitAccept(ip: string, pps: u32) | Foreign(spec: string)

  // The command being carried out, and the next thing it does. Commands are handled one at a time.
  datatype Installer =
    | Idle
    | BlockXdp(ip: string, duration: u32)
    | BlockAppend(ip: string, duration: u32)
    | LimitAppend(ip: string, duration: u32, pps: u32)
    | LimitDrop(ip: string, duration: u32, pps: u32)

  // A sleeping or half-finished cleanup task.
  datatype Task =
    | BlockTask(ip: string, unblocked: bool)
    | LimitTask(ip: string, pps: u32, acceptDeleted: bool)

  // permanent records the rules installed with duration 0, which no task will ever remove.
  datatype Host = Host(chain: seq<FwRule>, xdp: set<string>, installer: Installer, tasks: seq<Task>,
                       permanent: seq<FwRule>)

  function Start(chain: seq<FwRule>): Host {
    Host(chain, {}, Idle, [], [])
  }

  // iptables -D: the first rule that matches, if there is one.
  function DeleteFirst(chain: seq<FwRule>, r: FwRule): seq<FwRule> {
    if chain == [] then []
    else if chain[0] == r then chain[1..]
    else [chain[0]] + DeleteFirst(chain[1..], r)
  }

  lemma DeletePasses(chain: seq<FwRule>, r: FwRule, i: nat)
    requires i < |chain| && chain[i] != r
    ensures chain[..i] + DeleteFirst(chain[i..], r) == chain[..i + 1] + DeleteFirst(chain[i + 1..], r)
  {
    var rest := DeleteFirst(chain[i + 1..], r);
    assert chain[i..][1..] == chain[i + 1..];
    assert chain[..i] + ([chain[i]] + rest) == (chain[..i] + [chain[i]]) + rest;
    assert chain[..i] + [chain[i]] == chain[..i + 1];
  }

  lemma DeleteStops(chain: seq<FwRule>, r: FwRule, i: nat)
    requires i < |chain| && chain[i] == r
    ensures DeleteFirst(chain[i..], r) == chain[i + 1..]
  {
    assert chain[i..][1..] == chain[i + 1..];
  }

  // xdpActive and xdpOk are the answers of is_xdp_active and of bpftool at that moment.
  datatype Step =
    | Command(cmd: ActionCommand)
    | Install(xdpActive: bool, xdpOk: bool)
    | Clean(task: nat, xdpActive: bool, xdpOk: bool)

  predicate Enabled(h: Host, s: Step) {
    match s
    case Command(_) => h.installer.Idle?
    case Install(_, _) => !h.installer.Idle?
    case Clean(i, _, _) => i < |h.tasks|
  }

  function Accept(h: Host, cmd: ActionCommand): Host {
    match cmd.action
    case BLOCK => h.(installer := BlockXdp(cmd.targetIp, cmd.durationSeconds))
    case RATE_LIMIT => h.(installer := LimitAppend(cmd.targetIp, cmd.durationSeconds, cmd.rateLimitPps))
    case ALLOW => h
  }

  function InstallNext(h: Host, xdpActive: bool, xdpOk: bool): Host {
    match h.installer
    case Idle => h
    case BlockXdp(ip, duration) =>
      h.(xdp := if xdpActive && xdpOk then h.xdp + {ip} else h.xdp, installer := BlockAppend(ip, duration))
    case BlockAppend(ip, duration) =>
      var h' := h.(chain := h.chain + [Drop(ip)], installer := Idle);
      if duration > 0 then h'.(tasks := h.tasks + [BlockTask(ip, false)])
      else h'.(permanent := h.permanent + [Drop(ip)])
    case LimitAppend(ip, duration, pps) =>
      h.(chain := h.chain + [LimitAccept(ip, pps)], installer := LimitDrop(ip, duration, pps))
    case LimitDrop(ip, duration, pps) =>
      var h' := h.(chain := h.chain + [Drop(ip)], installer := Idle);
      if duration > 0 then h'.(tasks := h.tasks + [LimitTask(ip, pps, false)])
      else h'.(permanent := h.permanent + [LimitAccept(ip, pps), Drop(ip)])
  }

  function CleanNext(h: Host, i: nat, xdpActive: bool, xdpOk: bool): Host
    requires i < |h.tasks|
  {
    match h.tasks[i]
    case BlockTask(ip, false) =>
      h.(xdp := if xdpActive && xdpOk then h.xdp - {ip} else h.xdp, tasks := h.tasks[i := BlockTask(ip, true)])
    case BlockTask(ip, true) =>
      h.(chain := DeleteFirst(h.chain, Drop(ip)), tasks := h.tasks[..i] + h.tasks[i + 1..])
    case LimitTask(ip, pps, false) =>
      h.(chain := DeleteFirst(h.chain, LimitAccept(ip, pps)), tasks := h.tasks[i := LimitTask(ip, pps, true)])
    case LimitTask(ip, pps, true) =>
      h.(chain := DeleteFirst(h.chain, Drop(ip)), tasks := h.tasks[..i] + h.tasks[i + 1..])
  }

  function Next(h: Host, s: Step): Host
    requires Enabled(h, s)
  {
    match s
    case Command(cmd) => Accept(h, cmd)
    case Install(active, ok) => InstallNext(h, active, ok)
    case Clean(i, active, ok) => CleanNext(h, i, active, ok)
  }

  // An interleaving: any enabled step may come next; a task may wake at any time.
  ghost predicate Schedule(h: Host, steps: seq<Step>)
    decreases |steps|
  {
    steps == [] || (Enabled(h, steps[0]) && Schedule(Next(h, steps[0]), steps[1..]))
  }

  function Run(h: Host, steps: seq<Step>): Host
    requires Schedule(h, steps)
    decreases |steps|
  {
    if steps == [] then h else Run(Next(h, steps[0]), steps[1..])
  }

  /** The running agent: one method per atomic step of the three async functions. */
  class Agent {
    var chain: seq<FwRule>
    var xdp: set<string>
    var installer: Installer
    var tasks: seq<Task>
    ghost var permanent: seq<FwRule>

    ghost function State(): Host
      reads this
    { Host(chain, xdp, installer, tasks, permanent) }

    constructor (initial: seq<FwRule>)
      ensures State() == Start(initial)
    {
      chain, xdp, installer, tasks, permanent := initial, {}, Idle, [], [];
    }

    method HandleCommand(cmd: ActionCommand)
      requires installer.Idle?
      modifies this
      ensures State() == Next(old(State()), Command(cmd))
    {
      match cmd.action
      case BLOCK => installer := BlockXdp(cmd.targetIp, cmd.durationSeconds);
      case RATE_LIMIT => installer := LimitAppend(cmd.targetIp, cmd.durationSeconds, cmd.rateLimitPps);
      case ALLOW =>
    }

    method InstallStep(xdpActive: bool, xdpOk: bool)
      requires !installer.Idle?
      modifies this
      ensures State() == Next(old(State()), Install(xdpActive, xdpOk))
    {
      match installer
      case BlockXdp(ip, duration) =>
        if xdpActive && xdpOk {
          xdp := xdp + {ip};
        }
        installer := BlockAppend(ip, duration);
      case BlockAppend(ip, duration) =>
        chain := chain + [Drop(ip)];
        if duration > 0 {
          tasks := tasks + [BlockTask(ip, false)];
        } else {
          permanent := permanent + [Drop(ip)];
        }
        installer := Idle;
      case LimitAppend(ip, duration, pps) =>
        chain := chain + [LimitAccept(ip, pps)];
        installer := LimitDrop(ip, duration, pps);
      case LimitDrop(ip, duration, pps) =>
        chain := chain + [Drop(ip)];
        if duration > 0 {
          tasks := tasks + [LimitTask(ip, pps, false)];
        } else {
          permanent := permanent + [LimitAccept(ip, pps), Drop(ip)];
        }
        installer := Idle;
    }

    // Deletes the first rule equal to r, as iptables -D does; reports whether there was one.
    method Delete(r: FwRule) returns (found: bool)
      modifies this`chain
      ensures chain == DeleteFirst(old(chain), r)
      ensures found <==> r in old(chain)
    {
      var i := 0;
      while i < |chain| && chain[i] != r
        invariant chain == old(chain) && i <= |chain|
        invariant r !in chain[..i]
        invariant DeleteFirst(chain, r) == chain[..i] + DeleteFirst(chain[i..], r)
      {
        DeletePasses(chain, r, i);
        i := i + 1;
      }
      assert chain == chain[..i] + chain[i..];
      found := i < |chain|;
      if found {
        DeleteStops(chain, r, i);
        chain := chain[..i] + chain[i + 1..];
      }
    }

    method CleanStep(i: nat, xdpActive: bool, xdpOk: bool)
      requires i < |tasks|
      modifies this
      ensures State() == Next(old(State()), Clean(i, xdpActive, xdpOk))
    {
      match tasks[i]
      case BlockTask(ip, false) =>
        if xdpActive && xdpOk {
          xdp := xdp - {ip};
        }
        tasks := tasks[i := BlockTask(ip, true)];
      case BlockTask(ip, true) =>
        var _ := Delete(Drop(ip));
        tasks := tasks[..i] + tasks[i + 1..];
      case LimitTask(ip, pps, false) =>
        var _ := Delete(LimitAccept(ip, pps));
        tasks := tasks[i := LimitTask(ip, pps, true)];
      case LimitTask(ip, pps, true) =>
        var _ := Delete(Drop(ip));
        tasks := tasks[..i] + tasks[i + 1..];
    }
  }

  // ----- Conservation of rules ---------------------------------------------------------------

  function Count(chain: seq<FwRule>, r: FwRule): nat {
    if chain == [] then 0 else (if chain[0] == r then 1 else 0) + Count(chain[1..], r)
  }

  // Whether task t still has to delete a rule r.
  function Owes(t: Task, r: FwRule): nat {
    match t
    case BlockTask(ip, _) => if r == Drop(ip) then 1 else 0
    case LimitTask(ip, pps, acceptDeleted) =>
      if r == Drop(ip) || (r == LimitAccept(ip, pps) && !acceptDeleted) then 1 else 0
  }

  function Owed(tasks: seq<Task>, r: FwRule): nat {
    if tasks == [] then 0 else Owes(tasks[0], r) + Owed(tasks[1..], r)
  }

  function HalfInstalled(i: Installer, r: FwRule): nat {
    if i.LimitDrop? && r == LimitAccept(i.ip, i.pps) then 1 else 0
  }

  ghost predicate Conserved(initial: seq<FwRule>, h: Host, r: FwRule) {
    Count(h.chain, r)
    == Count(initial, r) + Count(h.permanent, r) + Owed(h.tasks, r) + HalfInstalled(h.installer, r)
  }

  lemma {:induction false} CountAppend(chain: seq<FwRule>, last: FwRule, r: FwRule)
    ensures Count(chain + [last], r) == Count(chain, r) + (if last == r then 1 else 0)
  {
    if chain == [] {
    } else {
      CountAppend(chain[1..], last, r);
      assert (chain + [last])[1..] == chain[1..] + [last];
    }
  }

  lemma {:induction false} CountPositive(chain: seq<FwRule>, r: FwRule)
    ensures Count(chain, r) > 0 <==> r in chain
  {
    if chain == [] {
    } else {
      CountPositive(chain[1..], r);
    }
  }

  lemma {:induction false} OwedAppend(tasks: seq<Task>, last: Task, r: FwRule)
    ensures Owed(tasks + [last], r) == Owed(tasks, r) + Owes(last, r)
  {
    if tasks == [] {
    } else {
      OwedAppend(tasks[1..], last, r);
      assert (tasks + [last])[1..] == tasks[1..] + [last];
    }
  }

  // Replacing or removing task i changes the total by that task alone.
  lemma {:induction false} OwedAt(tasks: seq<Task>, i: nat, t: Task, r: FwRule)
    requires i < |tasks|
    ensures Owed(tasks, r) == Owed(tasks[..i] + tasks[i + 1..], r) + Owes(tasks[i], r)
    ensures Owed(tasks[i := t], r) == Owed(tasks[..i] + tasks[i + 1..], r) + Owes(t, r)
  {
    var without := tasks[..i] + tasks[i + 1..];
    if i == 0 {
      assert without == tasks[1..];
    } else {
      OwedAt(tasks[1..], i - 1, t, r);
      assert without[1..] == tasks[1..][..i - 1] + tasks[1..][i..];
      assert tasks[i := t][1..] == tasks[1..][i - 1 := t];
    }
  }

  lemma {:induction false} DeleteRemovesOne(chain: seq<FwRule>, target: FwRule, r: FwRule)
    ensures Count(DeleteFirst(chain, target), r) == Count(chain, r) - (if r == target && target in chain then 1 else 0)
  {
    if chain == [] || chain[0] == target {
    } else {
      DeleteRemovesOne(chain[1..], target, r);
    }
  }

  // The rule that task t deletes next.
  function Target(t: Task): FwRule {
    match t
    case LimitTask(ip, pps, false) => LimitAccept(ip, pps)
    case LimitTask(ip, _, true) => Drop(ip)
    case BlockTask(ip, _) => Drop(ip)
  }

  lemma TargetPresent(initial: seq<FwRule>, h: Host, i: nat)
    requires i < |h.tasks| && Conserved(initial, h, Target(h.tasks[i]))
    ensures Target(h.tasks[i]) in h.chain
  {
    var r := Target(h.tasks[i]);
    OwedAt(h.tasks, i, h.tasks[i], r);
    CountPositive(h.chain, r);
  }

  lemma CleanConserves(initial: seq<FwRule>, h: Host, i: nat, active: bool, ok: bool, r: FwRule)
    requires i < |h.tasks| && Conserved(initial, h, Target(h.tasks[i])) && Conserved(initial, h, r)
    ensures Conserved(initial, CleanNext(h, i, active, ok), r)
  {
    hide Count, Owed, DeleteFirst;
    TargetPresent(initial, h, i);
    DeleteRemovesOne(h.chain, Target(h.tasks[i]), r);
    match h.tasks[i]
    case BlockTask(ip, _) => OwedAt(h.tasks, i, BlockTask(ip, true), r);
    case LimitTask(ip, pps, _) => OwedAt(h.tasks, i, LimitTask(ip, pps, true), r);
  }

  lemma InstallConserves(initial: seq<FwRule>, h: Host, active: bool, ok: bool, r: FwRule)
    requires Conserved(initial, h, r)
    ensures Conserved(initial, InstallNext(h, active, ok), r)
  {
    hide Count, Owed;
    match h.installer
    case Idle =>
    case BlockXdp(_, _) =>
    case BlockAppend(ip, _) =>
      CountAppend(h.chain, Drop(ip), r);
      CountAppend(h.permanent, Drop(ip), r);
      OwedAppend(h.tasks, BlockTask(ip, false), r);
    case LimitAppend(ip, _, pps) =>
      CountAppend(h.chain, LimitAccept(ip, pps), r);
    case LimitDrop(ip, _, pps) =>
      CountAppend(h.chain, Drop(ip), r);
      CountAppend(h.permanent, LimitAccept(ip, pps), r);
      CountAppend(h.permanent + [LimitAccept(ip, pps)], Drop(ip), r);
      assert h.permanent + [LimitAccept(ip, pps)] + [Drop(ip)] == h.permanent + [LimitAccept(ip, pps), Drop(ip)];
      OwedAppend(h.tasks, LimitTask(ip, pps, false), r);
  }

  ghost predicate AllConserved(initial: seq<FwRule>, h: Host) {
    forall r :: Conserved(initial, h, r)
  }

  lemma StepConserves(initial: seq<FwRule>, h: Host, s: Step)
    requires AllConserved(initial, h) && Enabled(h, s)
    ensures AllConserved(initial, Next(h, s))
  {
    forall r
      ensures Conserved(initial, Next(h, s), r)
    {
      assert Conserved(initial, h, r);
      match s {
        case Command(_) =>
        case Install(active, ok) => InstallConserves(initial, h, active, ok, r);
        case Clean(i, active, ok) => CleanConserves(initial, h, i, active, ok, r);
      }
    }
  }

  lemma {:induction false} RunConserves(initial: seq<FwRule>, h: Host, steps: seq<Step>)
    requires AllConserved(initial, h) && Schedule(h, steps)
    ensures AllConserved(initial, Run(h, steps))
    decreases |steps|
  {
    if steps == [] {
    } else {
      StepConserves(initial, h, steps[0]);
      RunConserves(initial, Next(h, steps[0]), steps[1..]);
    }
  }

  // At every moment of every interleaving, and for any chain found at start, the chain holds
  // exactly the rules it began with, the permanent ones, and those still owed by unfinished
  // tasks or by the command in progress. So every delete finds a rule to delete.
  lemma RulesConserved(initial: seq<FwRule>, steps: seq<Step>)
    requires Schedule(Start(initial), steps)
    ensures var h := Run(Start(initial), steps);
      && (forall r :: Count(h.chain, r) == Count(initial, r) + Count(h.permanent, r)
                                           + Owed(h.tasks, r) + HalfInstalled(h.installer, r))
      && (forall i | 0 <= i < |h.tasks| :: Target(h.tasks[i]) in h.chain)
  {
    RunConserves(initial, Start(initial), steps);
    var h := Run(Start(initial), steps);
    forall r
      ensures Count(h.chain, r) == Count(initial, r) + Count(h.permanent, r)
                                   + Owed(h.tasks, r) + HalfInstalled(h.installer, r)
    {
      assert Conserved(initial, h, r);
    }
    forall i | 0 <= i < |h.tasks|
      ensures Target(h.tasks[i]) in h.chain
    {
      assert Conserved(initial, h, Target(h.tasks[i]));
      TargetPresent(initial, h, i);
    }
  }
}
