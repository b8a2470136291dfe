/** The XDP packet counters when invocations of the program overlap on several CPUs. Each counter
    update is one atomic step; so is reading the maps and spending a token. */
module XdpStats {
  import opened Word64
  import XdpFilter

  // Where an invocation is: past the total counter, or past its decision and before its verdict counter.
  datatype Pc = Entered(frame: XdpFilter.Frame) | Decided(exit: XdpFilter.Exit)

  datatype Host = Host(maps: XdpFilter.Maps, total: u64, dropped: u64, passed: u64,
                       running: map<nat, Pc>, finished: seq<XdpFilter.Exit>)

  datatype Step =
    | Enter(cpu: nat, frame: XdpFilter.Frame)
    | Decide(cpu: nat, now: u64)
    | Finish(cpu: nat)
    | Edit(event: XdpFilter.Event)

  predicate Enabled(h: Host, s: Step) {
    match s
    case Enter(cpu, _) => cpu !in h.running
    case Decide(cpu, _) => cpu in h.running && h.running[cpu].Entered?
    case Finish(cpu) => cpu in h.running && h.running[cpu].Decided?
    case Edit(event) => !event.Packet?
  }

  function Next(h: Host, s: Step): Host
    requires Enabled(h, s)
  {
    match s
    case Enter(cpu, f) => h.(total := Incremented(h.total), running := h.running[cpu := Entered(f)])
    case Decide(cpu, now) =>
      var (maps, exit) := XdpFilter.Inspect(h.maps, h.running[cpu].frame, now);
      h.(maps := maps, running := h.running[cpu := Decided(exit)])
    case Finish(cpu) =>
      var exit := h.running[cpu].exit;
      var h' := h.(running := h.running - {cpu}, finished := h.finished + [exit]);
      if exit.Drops() then h'.(dropped := Incremented(h.dropped)) else h'.(passed := Incremented(h.passed))
    case Edit(event) => h.(maps := XdpFilter.Apply(h.maps, event))
  }

  // A schedule: at each point any enabled step of any invocation may happen.
  ghost predicate Schedule(h: Host, steps: seq<Step>)
    decreases |steps|
  {
    steps == [] || (Enabled(h, steps[0]) && Schedule(Next(h, steps[0]), steps[1..]))
  }

  function Run(h: Host, steps: seq<Step>): Host
    requires Schedule(h, steps)
    decreases |steps|
  {
    if steps == [] then h else Run(Next(h, steps[0]), steps[1..])
  }

  function Fresh(maps: XdpFilter.Maps): Host {
    Host(maps, 0, 0, 0, map[], [])
  }

  function DropCount(exits: seq<XdpFilter.Exit>): nat {
    if exits == [] then 0
    else DropCount(exits[..|exits| - 1]) + (if exits[|exits| - 1].Drops() then 1 else 0)
  }

  ghost predicate Balanced(h: Host) {
    && h.total == Wrap(|h.finished| + |h.running|)
    && h.dropped == Wrap(DropCount(h.finished))
    && h.passed == Wrap(|h.finished| - DropCount(h.finished))
  }

  lemma RunningCount(h: Host, s: Step)
    requires Enabled(h, s)
    ensures |Next(h, s).finished| + |Next(h, s).running| == |h.finished| + |h.running| + (if s.Enter? then 1 else 0)
    ensures s.Finish? ==> DropCount(Next(h, s).finished)
                          == DropCount(h.finished) + (if h.running[s.cpu].exit.Drops() then 1 else 0)
  {
  }

  lemma DropCountBound(exits: seq<XdpFilter.Exit>)
    ensures DropCount(exits) <= |exits|
  {
  }

  lemma StepKeepsBalance(h: Host, s: Step)
    requires Balanced(h) && Enabled(h, s)
    ensures Balanced(Next(h, s))
  {
    hide Wrap, Incremented, DropCount;
    RunningCount(h, s);
    DropCountBound(h.finished);
    IncrementedWrap(|h.finished| + |h.running|);
    IncrementedWrap(DropCount(h.finished));
    IncrementedWrap(|h.finished| - DropCount(h.finished));
  }

  lemma {:induction false} RunKeepsBalance(h: Host, steps: seq<Step>)
    requires Balanced(h) && Schedule(h, steps)
    ensures Balanced(Run(h, steps))
    decreases |steps|
  {
    if steps == [] {
    } else {
      StepKeepsBalance(h, steps[0]);
      RunKeepsBalance(Next(h, steps[0]), steps[1..]);
    }
  }

  lemma FreshIsBalanced(maps: XdpFilter.Maps)
    ensures Balanced(Fresh(maps))
  {
  }

  // In every interleaving the three counters differ by exactly the invocations in flight, and
  // once none is in flight they count the verdicts.
  lemma CountersAddUp(maps: XdpFilter.Maps, steps: seq<Step>)
    requires Schedule(Fresh(maps), steps)
    ensures var h := Run(Fresh(maps), steps);
      && h.total == Wrap((h.dropped as int) + (h.passed as int) + |h.running|)
      && h.dropped == Wrap(DropCount(h.finished))
      && (|h.running| == 0 ==> h.total == Wrap(|h.finished|) && h.passed == Wrap(|h.finished| - DropCount(h.finished)))
  {
    hide Wrap, DropCount, Run, Schedule;
    FreshIsBalanced(maps);
    RunKeepsBalance(Fresh(maps), steps);
    var h := Run(Fresh(maps), steps);
    DropCountBound(h.finished);
    WrapOfWraps(DropCount(h.finished), |h.finished| - DropCount(h.finished), |h.running|);
  }

  // ----- One after the other -----------------------------------------------------------------------------

  // The same work done sequentially: each frame that entered, in the order of the decisions, with the
  // edits where they fell. entered holds the frame each processor entered with last.
  function Trace(entered: map<nat, XdpFilter.Frame>, steps: seq<Step>): seq<XdpFilter.Event>
    decreases |steps|
  {
    if steps == [] then []
    else match steps[0]
      case Enter(cpu, f) => Trace(entered[cpu := f], steps[1..])
      case Decide(cpu, now) =>
        (if cpu in entered then [XdpFilter.Packet(entered[cpu], now)] else []) + Trace(entered, steps[1..])
      case Finish(_) => Trace(entered, steps[1..])
      case Edit(event) => [event] + Trace(entered, steps[1..])
  }

  // Packets, and dropped packets, of a sequential run.
  function Packets(es: seq<XdpFilter.Event>): nat {
    if es == [] then 0 else (if es[0].Packet? then 1 else 0) + Packets(es[1..])
  }

  predicate IsDrop(m: XdpFilter.Maps, e: XdpFilter.Event) {
    e.Packet? && XdpFilter.VerdictOf(XdpFilter.Inspect(m, e.frame, e.now).1) == XdpFilter.XdpDrop
  }

  function Drops(m: XdpFilter.Maps, es: seq<XdpFilter.Event>): nat
    decreases |es|
  {
    if es == [] then 0 else (if IsDrop(m, es[0]) then 1 else 0) + Drops(XdpFilter.Apply(m, es[0]), es[1..])
  }

  function Deciding(running: map<nat, Pc>): set<nat> {
    set cpu | cpu in running && running[cpu].Decided?
  }

  function Dropping(running: map<nat, Pc>): set<nat> {
    set cpu | cpu in running && running[cpu].Decided? && running[cpu].exit.Drops()
  }

  ghost predicate EnteredWith(entered: map<nat, XdpFilter.Frame>, running: map<nat, Pc>) {
    forall cpu | cpu in running && running[cpu].Entered? :: cpu in entered && entered[cpu] == running[cpu].frame
  }

  // Verdicts given so far: those counted, and those about to be.
  function Given(h: Host): nat {
    |h.finished| + |Deciding(h.running)|
  }

  function GivenDrops(h: Host): nat {
    DropCount(h.finished) + |Dropping(h.running)|
  }

  lemma DecideGives(h: Host, cpu: nat, now: u64)
    requires Enabled(h, Decide(cpu, now))
    ensures var h', e := Next(h, Decide(cpu, now)), XdpFilter.Packet(h.running[cpu].frame, now);
      && h'.maps == XdpFilter.Apply(h.maps, e)
      && Given(h') == Given(h) + 1 && GivenDrops(h') == GivenDrops(h) + (if IsDrop(h.maps, e) then 1 else 0)
  {
    hide XdpFilter.Inspect, DropCount;
    var h', e := Next(h, Decide(cpu, now)), XdpFilter.Packet(h.running[cpu].frame, now);
    assert Deciding(h'.running) == Deciding(h.running) + {cpu};
    assert Dropping(h'.running) == Dropping(h.running) + (if IsDrop(h.maps, e) then {cpu} else {});
  }

  lemma FinishGivesNone(h: Host, cpu: nat)
    requires Enabled(h, Finish(cpu))
    ensures Given(Next(h, Finish(cpu))) == Given(h) && GivenDrops(Next(h, Finish(cpu))) == GivenDrops(h)
  {
    var h' := Next(h, Finish(cpu));
    RunningCount(h, Finish(cpu));
    assert Deciding(h'.running) == Deciding(h.running) - {cpu} && cpu in Deciding(h.running);
    assert Dropping(h'.running) == Dropping(h.running) - {cpu};
    assert cpu in Dropping(h.running) <==> h.running[cpu].exit.Drops();
    hide DropCount;
  }

  lemma EnterGivesNone(h: Host, cpu: nat, f: XdpFilter.Frame)
    requires Enabled(h, Enter(cpu, f))
    ensures Given(Next(h, Enter(cpu, f))) == Given(h) && GivenDrops(Next(h, Enter(cpu, f))) == GivenDrops(h)
  {
    var h' := Next(h, Enter(cpu, f));
    assert Deciding(h'.running) == Deciding(h.running) && Dropping(h'.running) == Dropping(h.running);
  }

  lemma {:induction false} SerialFrom(h: Host, steps: seq<Step>, entered: map<nat, XdpFilter.Frame>)
    requires Schedule(h, steps) && EnteredWith(entered, h.running)
    ensures var h', es := Run(h, steps), Trace(entered, steps);
      && h'.maps == XdpFilter.Run(h.maps, es)
      && Given(h') == Given(h) + Packets(es) && GivenDrops(h') == GivenDrops(h) + Drops(h.maps, es)
    decreases |steps|
  {
    hide Given, GivenDrops, IsDrop, XdpFilter.Apply;
    if steps == [] {
    } else {
      var h', rest := Next(h, steps[0]), steps[1..];
      match steps[0] {
        case Enter(cpu, f) =>
          EnterGivesNone(h, cpu, f);
          SerialFrom(h', rest, entered[cpu := f]);
        case Decide(cpu, now) =>
          var e := XdpFilter.Packet(h.running[cpu].frame, now);
          DecideGives(h, cpu, now);
          SerialFrom(h', rest, entered);
          assert Trace(entered, steps) == [e] + Trace(entered, rest);
          assert ([e] + Trace(entered, rest))[1..] == Trace(entered, rest);
        case Finish(cpu) =>
          FinishGivesNone(h, cpu);
          SerialFrom(h', rest, entered);
        case Edit(e) =>
          EditGivesNone(h, e);
          SerialFrom(h', rest, entered);
          assert ([e] + Trace(entered, rest))[1..] == Trace(entered, rest);
      }
    }
  }

  lemma EditGivesNone(h: Host, e: XdpFilter.Event)
    requires Enabled(h, Edit(e))
    ensures Given(Next(h, Edit(e))) == Given(h) && GivenDrops(Next(h, Edit(e))) == GivenDrops(h)
    ensures !IsDrop(h.maps, e)
  {
  }

  lemma GivenWhenIdle(h: Host)
    requires h.running == map[]
    ensures Given(h) == |h.finished| && GivenDrops(h) == DropCount(h.finished)
  {
    assert Deciding(h.running) == {} && Dropping(h.running) == {};
    hide DropCount;
  }

  // However the invocations overlap, once none is in flight the maps and the counters are those of one
  // sequential run of the program over the frames that entered: packets, dropped, and passed.
  lemma CountersAreSerial(maps: XdpFilter.Maps, steps: seq<Step>)
    requires Schedule(Fresh(maps), steps) && Run(Fresh(maps), steps).running == map[]
    ensures var h, es := Run(Fresh(maps), steps), Trace(map[], steps);
      && h.maps == XdpFilter.Run(maps, es)
      && h.total == Wrap(Packets(es)) && h.dropped == Wrap(Drops(maps, es))
      && Drops(maps, es) <= Packets(es) && h.passed == Wrap(Packets(es) - Drops(maps, es))
  {
    hide Schedule, Run, Trace, Packets, Drops, Wrap, DropCount, Given, GivenDrops;
    var h := Run(Fresh(maps), steps);
    SerialFrom(Fresh(maps), steps, map[]);
    FreshIsBalanced(maps);
    RunKeepsBalance(Fresh(maps), steps);
    DropCountBound(h.finished);
    GivenWhenIdle(h);
    GivenWhenIdle(Fresh(maps));
    NoDropsAtFirst(maps);
  }

  lemma NoDropsAtFirst(maps: XdpFilter.Maps)
    ensures |Fresh(maps).finished| == 0 && DropCount(Fresh(maps).finished) == 0
  {
  }
}
