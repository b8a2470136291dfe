/** Whole runs of the aggregator: every interleaving of reports, sweeps, pushes and receives. The
    ledger cuts the log of reports into segments and follows what became of each. */
module AggregatorRuns {
  import opened Wrappers
  import opened Proto
  import opened Aggregator

  datatype Action =
    | Report(report: PacketReport, now: int)
    | Collect(now: int, order: seq<FlowKey>)
    | PushOne
    | ReceiveOne

  // The aggregator, what Ingest has returned to its callers, what they received from the channel,
  // and what was logged as dropped because the channel was full.
  datatype World = World(st: State, returned: seq<FlowResult>, delivered: seq<FlowResult>, lost: seq<FlowResult>)

  const START := World(State(map[], [], []), [], [], [])

  // One goroutine sweeps, so it collects again only after pushing everything it collected before.
  predicate Enabled(w: World, a: Action) {
    match a
    case Report(_, _) => true
    case Collect(_, order) => w.st.ready == [] && forall key | key in w.st.flows :: key in order
    case PushOne => w.st.ready != []
    case ReceiveOne => w.st.channel != []
  }

  function Next(w: World, a: Action): World
    requires Enabled(w, a)
  {
    match a
    case Report(r, now) =>
      var (st, result) := Ingest(w.st, r, now);
      w.(st := st, returned := if result.Some? then w.returned + [result.value] else w.returned)
    case Collect(now, order) => w.(st := Sweep(w.st, now, order))
    case PushOne =>
      w.(st := Push(w.st), lost := if |w.st.channel| < CHANNEL_CAPACITY then w.lost else w.lost + [w.st.ready[0]])
    case ReceiveOne =>
      var (st, result) := Receive(w.st);
      w.(st := st, delivered := w.delivered + [result])
  }

  ghost predicate Schedule(w: World, actions: seq<Action>)
    decreases |actions|
  {
    actions == [] || (Enabled(w, actions[0]) && Schedule(Next(w, actions[0]), actions[1..]))
  }

  function Run(w: World, actions: seq<Action>): World
    requires Schedule(w, actions)
    decreases |actions|
  {
    if actions == [] then w else Run(Next(w, actions[0]), actions[1..])
  }

  // ----- Reports and what a stretch of them adds up to --------------------------------------------------

  datatype Arrival = Arrival(report: PacketReport, now: int)

  function LogOf(actions: seq<Action>): seq<Arrival> {
    if actions == [] then []
    else (if actions[0].Report? then [Arrival(actions[0].report, actions[0].now)] else []) + LogOf(actions[1..])
  }

  // A report belongs to a flow when all four fields of the key are its own.
  predicate OfFlow(r: PacketReport, key: FlowKey) {
    r.srcIp == key.srcIP && r.dstIp == key.dstIP && r.dstPort == key.dstPort && r.protocol == key.protocol
  }

  function OfKey(log: seq<Arrival>, key: FlowKey): seq<Arrival> {
    if log == [] then [] else (if OfFlow(log[0].report, key) then [log[0]] else []) + OfKey(log[1..], key)
  }

  function Bytes(arrivals: seq<Arrival>): nat {
    if arrivals == [] then 0 else Bytes(arrivals[..|arrivals| - 1]) + arrivals[|arrivals| - 1].report.length
  }

  // The counters a flow holds after exactly these reports.
  function StateOf(arrivals: seq<Arrival>): FlowState
    requires arrivals != []
  {
    FlowState(arrivals[0].now, arrivals[|arrivals| - 1].now, |arrivals|, Bytes(arrivals), |arrivals|, Bytes(arrivals),
              arrivals[0].report.dstPort)
  }

  ghost predicate AllOfKey(arrivals: seq<Arrival>, key: FlowKey) {
    forall i | 0 <= i < |arrivals| :: OfFlow(arrivals[i].report, key)
  }

  lemma {:induction false} BytesBound(arrivals: seq<Arrival>)
    ensures Bytes(arrivals) <= |arrivals| * 0xFFFF_FFFF
  {
    if arrivals == [] {
    } else {
      BytesBound(arrivals[..|arrivals| - 1]);
    }
  }

  // ----- The ledger ----------------------------------------------------------------------------------------

  datatype Fate = Returned | Thin | Ready | Queued | Delivered | Lost
  datatype Segment = Segment(key: FlowKey, arrivals: seq<Arrival>, fate: Fate, closedAt: int)

  datatype Ledger = Ledger(world: World, log: seq<Arrival>, active: map<FlowKey, seq<Arrival>>, segments: seq<Segment>)

  function ActiveOf(active: map<FlowKey, seq<Arrival>>, key: FlowKey): seq<Arrival> {
    if key in active then active[key] else []
  }

  // The first segment with one fate gets another.
  function Mark(segments: seq<Segment>, from: Fate, to: Fate): seq<Segment> {
    if segments == [] then []
    else if segments[0].fate == from then [segments[0].(fate := to)] + segments[1..]
    else [segments[0]] + Mark(segments[1..], from, to)
  }

  function Close(l: Ledger, key: FlowKey, fate: Fate, now: int): Ledger
    requires key in l.active
  {
    l.(active := l.active - {key}, segments := l.segments + [Segment(key, l.active[key], fate, now)])
  }

  function NoteReport(l: Ledger, r: PacketReport, now: int): Ledger {
    var key, arrival := KeyOf(r), Arrival(r, now);
    var arrivals := ActiveOf(l.active, key) + [arrival];
    var l' := l.(world := Next(l.world, Report(r, now)), log := l.log + [arrival], active := l.active[key := arrivals]);
    if |arrivals| >= MAX_PACKETS then Close(l', key, Returned, now) else l'
  }

  function NoteSweepKey(l: Ledger, now: int, key: FlowKey): Ledger {
    var l' := l.(world := l.world.(st := SweepKey(l.world.st, now, key)));
    if key !in l.active || key !in l.world.st.flows || !Expired(l.world.st.flows[key], now) then l'
    else Close(l', key, if l.world.st.flows[key].totalPackets >= MIN_PACKETS then Ready else Thin, now)
  }

  function NoteSweep(l: Ledger, now: int, order: seq<FlowKey>): Ledger
    decreases |order|
  {
    if order == [] then l else NoteSweep(NoteSweepKey(l, now, order[0]), now, order[1..])
  }

  function Note(l: Ledger, a: Action): Ledger
    requires Enabled(l.world, a)
  {
    match a
    case Report(r, now) => NoteReport(l, r, now)
    case Collect(now, order) => NoteSweep(l, now, order)
    case PushOne =>
      var to := if |l.world.st.channel| < CHANNEL_CAPACITY then Queued else Lost;
      l.(world := Next(l.world, a), segments := Mark(l.segments, Ready, to))
    case ReceiveOne => l.(world := Next(l.world, a), segments := Mark(l.segments, Queued, Delivered))
  }

  // ----- What the ledger guarantees ------------------------------------------------------------------------

  // The closed segments of a key, end to end.
  function Cut(segments: seq<Segment>, key: FlowKey): seq<Arrival> {
    if segments == [] then []
    else (if segments[0].key == key then segments[0].arrivals else []) + Cut(segments[1..], key)
  }

  ghost predicate LogCut(l: Ledger, key: FlowKey) {
    OfKey(l.log, key) == Cut(l.segments, key) + ActiveOf(l.active, key)
  }

  function ResultOf(s: Segment): FlowResult
    requires s.arrivals != []
  {
    Export(s.key, StateOf(s.arrivals))
  }

  ghost predicate WellSized(s: Segment) {
    && s.arrivals != [] && AllOfKey(s.arrivals, s.key)
    && match s.fate
       case Returned => |s.arrivals| == 200 && s.closedAt == s.arrivals[|s.arrivals| - 1].now
       case Thin => |s.arrivals| < 3 && s.closedAt - s.arrivals[0].now >= 5_000_000_000
       case _ => 3 <= |s.arrivals| < 200 && s.closedAt - s.arrivals[0].now >= 5_000_000_000
  }

  ghost predicate AllWellSized(segments: seq<Segment>) {
    forall i | 0 <= i < |segments| :: WellSized(segments[i])
  }

  // The results of the segments with this fate, in order.
  ghost function Select(segments: seq<Segment>, fate: Fate): seq<FlowResult>
    requires AllWellSized(segments)
  {
    if segments == [] then []
    else (if segments[0].fate == fate then [ResultOf(segments[0])] else []) + Select(segments[1..], fate)
  }

  ghost predicate Active(l: Ledger) {
    && l.world.st.flows.Keys == l.active.Keys
    && forall key | key in l.active ::
         && 1 <= |l.active[key]| < 200 && AllOfKey(l.active[key], key)
         && l.world.st.flows[key] == StateOf(l.active[key])
  }

  // Results move through ready and channel in the order their segments were closed.
  ghost predicate InOrder(segments: seq<Segment>) {
    forall i, j | 0 <= i < j < |segments| ::
      && (segments[i].fate == Ready ==> segments[j].fate !in {Queued, Delivered, Lost})
      && (segments[i].fate == Queued ==> segments[j].fate != Delivered)
  }

  ghost predicate Filed(w: World, segments: seq<Segment>)
    requires AllWellSized(segments)
  {
    && w.returned == Select(segments, Returned) && w.delivered == Select(segments, Delivered)
    && w.st.ready == Select(segments, Ready) && w.st.channel == Select(segments, Queued)
    && w.lost == Select(segments, Lost)
    && |w.st.channel| <= 256
  }

  ghost predicate Sound(l: Ledger) {
    && Active(l) && AllWellSized(l.segments) && InOrder(l.segments) && Filed(l.world, l.segments)
    && forall key :: LogCut(l, key)
  }

  // ----- Sequence facts --------------------------------------------------------------------------------------

  lemma {:induction false} OfKeyAppend(log: seq<Arrival>, a: Arrival, key: FlowKey)
    ensures OfKey(log + [a], key) == OfKey(log, key) + (if OfFlow(a.report, key) then [a] else [])
  {
    if log == [] {
      assert log + [a] == [a];
    } else {
      OfKeyAppend(log[1..], a, key);
      assert (log + [a])[1..] == log[1..] + [a];
    }
  }

  lemma {:induction false} CutAppend(segments: seq<Segment>, s: Segment, key: FlowKey)
    ensures Cut(segments + [s], key) == Cut(segments, key) + (if s.key == key then s.arrivals else [])
  {
    if segments == [] {
      assert segments + [s] == [s];
    } else {
      CutAppend(segments[1..], s, key);
      assert (segments + [s])[1..] == segments[1..] + [s];
    }
  }

  lemma {:induction false} CutMark(segments: seq<Segment>, from: Fate, to: Fate, key: FlowKey)
    ensures Cut(Mark(segments, from, to), key) == Cut(segments, key)
  {
    if segments == [] {
    } else {
      var marked := Mark(segments, from, to);
      if segments[0].fate == from {
        assert marked[1..] == segments[1..];
      } else {
        assert marked[1..] == Mark(segments[1..], from, to);
        CutMark(segments[1..], from, to, key);
      }
    }
  }

  lemma {:induction false} SelectAppend(segments: seq<Segment>, s: Segment, fate: Fate)
    requires AllWellSized(segments) && WellSized(s)
    ensures AllWellSized(segments + [s])
    ensures Select(segments + [s], fate) == Select(segments, fate) + (if s.fate == fate then [ResultOf(s)] else [])
  {
    hide ResultOf, WellSized;
    if segments == [] {
      assert segments + [s] == [s];
    } else {
      SelectAppend(segments[1..], s, fate);
      assert (segments + [s])[1..] == segments[1..] + [s];
    }
  }

  lemma {:induction false} SelectNone(segments: seq<Segment>, fate: Fate)
    requires AllWellSized(segments) && forall i | 0 <= i < |segments| :: segments[i].fate != fate
    ensures Select(segments, fate) == []
  {
    if segments == [] {
    } else {
      SelectNone(segments[1..], fate);
    }
  }

  lemma {:induction false} MarkIndex(segments: seq<Segment>, from: Fate, to: Fate) returns (i: nat)
    ensures |Mark(segments, from, to)| == |segments| && i <= |segments|
    ensures forall j | 0 <= j < i :: segments[j].fate != from
    ensures forall j | 0 <= j < |segments| && j != i :: Mark(segments, from, to)[j] == segments[j]
    ensures i < |segments| ==> segments[i].fate == from && Mark(segments, from, to)[i] == segments[i].(fate := to)
  {
    if segments == [] || segments[0].fate == from {
      i := 0;
    } else {
      var head, rest := segments[0], segments[1..];
      assert segments == [head] + rest && Mark(segments, from, to) == [head] + Mark(rest, from, to);
      hide Mark;
      i := MarkIndex(rest, from, to);
      i := i + 1;
    }
  }

  lemma MarkKeepsSizes(segments: seq<Segment>, from: Fate, to: Fate)
    requires AllWellSized(segments) && from != Returned && from != Thin && to != Returned && to != Thin
    ensures AllWellSized(Mark(segments, from, to))
  {
  }

  // Ready becomes Queued or Lost; Queued becomes Delivered.
  predicate Moves(from: Fate, to: Fate) {
    (from == Ready && (to == Queued || to == Lost)) || (from == Queued && to == Delivered)
  }

  lemma MarkKeepsOrder(segments: seq<Segment>, from: Fate, to: Fate)
    requires InOrder(segments) && Moves(from, to)
    ensures InOrder(Mark(segments, from, to))
  {
    var i := MarkIndex(segments, from, to);
    hide Mark;
  }

  // Marking moves the first result of one list to the end of another.
  lemma {:induction false} SelectMark(segments: seq<Segment>, from: Fate, to: Fate, fate: Fate)
    requires AllWellSized(segments) && InOrder(segments) && Moves(from, to)
    requires Select(segments, from) != []
    ensures AllWellSized(Mark(segments, from, to))
    ensures Select(Mark(segments, from, to), fate)
         == if fate == from then Select(segments, from)[1..]
            else if fate == to then Select(segments, to) + [Select(segments, from)[0]]
            else Select(segments, fate)
  {
    MarkKeepsSizes(segments, from, to);
    var s, rest := segments[0], segments[1..];
    assert WellSized(s) && AllWellSized(rest) && InOrder(rest) && [s] + rest == segments;
    if s.fate == from {
      assert forall i | 0 <= i < |rest| :: rest[i].fate != to;
      hide InOrder, AllWellSized, WellSized, ResultOf, Select;
      SelectMarkHead(s, rest, to, fate);
    } else {
      hide InOrder, AllWellSized, WellSized, ResultOf, Select;
      MarkKeepsSizes(rest, from, to);
      SelectCons(s, rest, from);
      SelectMark(rest, from, to, fate);
      SelectMarkTail(s, rest, from, to, fate);
    }
  }

  lemma SelectMarkHead(s: Segment, rest: seq<Segment>, to: Fate, fate: Fate)
    requires WellSized(s) && AllWellSized(rest) && Moves(s.fate, to)
    requires forall i | 0 <= i < |rest| :: rest[i].fate != to
    ensures AllWellSized([s] + rest) && AllWellSized([s.(fate := to)] + rest) && Select([s] + rest, s.fate) != []
    ensures Select([s.(fate := to)] + rest, fate)
         == if fate == s.fate then Select([s] + rest, s.fate)[1..]
            else if fate == to then Select([s] + rest, to) + [Select([s] + rest, s.fate)[0]]
            else Select([s] + rest, fate)
  {
    MovedSegment(s, to);
    if fate == to {
      SelectNone(rest, to);
    }
    hide ResultOf, WellSized, Select, AllWellSized;
    SelectCons(s, rest, fate);
    SelectCons(s, rest, s.fate);
    SelectCons(s.(fate := to), rest, fate);
  }

  lemma SelectMarkTail(s: Segment, rest: seq<Segment>, from: Fate, to: Fate, fate: Fate)
    requires WellSized(s) && AllWellSized(rest) && s.fate != from && AllWellSized(Mark(rest, from, to))
    requires Select(rest, from) != []
    requires Select(Mark(rest, from, to), fate)
          == if fate == from then Select(rest, from)[1..]
             else if fate == to then Select(rest, to) + [Select(rest, from)[0]]
             else Select(rest, fate)
    ensures AllWellSized([s] + rest) && AllWellSized([s] + Mark(rest, from, to)) && Select([s] + rest, from) != []
    ensures Select([s] + Mark(rest, from, to), fate)
         == if fate == from then Select([s] + rest, from)[1..]
            else if fate == to then Select([s] + rest, to) + [Select([s] + rest, from)[0]]
            else Select([s] + rest, fate)
  {
    hide ResultOf, WellSized, Select, AllWellSized, Mark;
    SelectCons(s, rest, fate);
    SelectCons(s, rest, from);
    SelectCons(s, Mark(rest, from, to), fate);
  }

  lemma MovedSegment(s: Segment, to: Fate)
    requires WellSized(s) && Moves(s.fate, to)
    ensures WellSized(s.(fate := to)) && ResultOf(s.(fate := to)) == ResultOf(s)
  {
  }

  lemma SelectCons(s: Segment, rest: seq<Segment>, fate: Fate)
    requires WellSized(s) && AllWellSized(rest)
    ensures AllWellSized([s] + rest)
    ensures Select([s] + rest, fate) == (if s.fate == fate then [ResultOf(s)] else []) + Select(rest, fate)
  {
  }

  // ----- Each step keeps the ledger sound -----------------------------------------------------------------------

  lemma CloseKeepsCut(l: Ledger, key: FlowKey, fate: Fate, now: int, k: FlowKey)
    requires key in l.active && LogCut(l, k)
    ensures LogCut(Close(l, key, fate, now), k)
  {
    CutAppend(l.segments, Segment(key, l.active[key], fate, now), k);
  }

  lemma CloseFiles(w: World, segments: seq<Segment>, s: Segment, w': World)
    requires AllWellSized(segments) && InOrder(segments) && Filed(w, segments) && WellSized(s)
    requires s.fate == Returned || s.fate == Thin || s.fate == Ready
    requires w'.delivered == w.delivered && w'.st.channel == w.st.channel && w'.lost == w.lost
    requires w'.returned == (if s.fate == Returned then w.returned + [ResultOf(s)] else w.returned)
    requires w'.st.ready == (if s.fate == Ready then w.st.ready + [ResultOf(s)] else w.st.ready)
    ensures AllWellSized(segments + [s]) && InOrder(segments + [s]) && Filed(w', segments + [s])
  {
    hide ResultOf, WellSized, Select;
    SelectAppend(segments, s, Returned);
    SelectAppend(segments, s, Delivered);
    SelectAppend(segments, s, Ready);
    SelectAppend(segments, s, Queued);
    SelectAppend(segments, s, Lost);
  }

  lemma NoteReportCut(l: Ledger, r: PacketReport, now: int, k: FlowKey)
    requires LogCut(l, k)
    ensures LogCut(NoteReport(l, r, now), k)
  {
    hide OfKey, Cut;
    var key, arrival := KeyOf(r), Arrival(r, now);
    var arrivals := ActiveOf(l.active, key) + [arrival];
    OfKeyAppend(l.log, arrival, k);
    var open := l.(log := l.log + [arrival], active := l.active[key := arrivals]);
    assert LogCut(open, k) by {
      assert Cut(l.segments, k) + (ActiveOf(l.active, k) + [arrival])
          == (Cut(l.segments, k) + ActiveOf(l.active, k)) + [arrival];
    }
    if |arrivals| >= MAX_PACKETS {
      CloseKeepsCut(open, key, Returned, now, k);
    }
  }

  lemma AccumulateIsStateOf(l: Ledger, r: PacketReport, now: int)
    requires Active(l)
    ensures var arrivals := ActiveOf(l.active, KeyOf(r)) + [Arrival(r, now)];
      && AllOfKey(arrivals, KeyOf(r))
      && Accumulate(l.world.st.flows, r, now) == StateOf(arrivals)
  {
    var before, arrival := ActiveOf(l.active, KeyOf(r)), Arrival(r, now);
    var arrivals := before + [arrival];
    assert arrivals[..|arrivals| - 1] == before;
    assert Bytes(arrivals) == Bytes(before) + r.length && Bytes([]) == 0;
    assert KeyOf(r) in l.active <==> KeyOf(r) in l.world.st.flows;
    if KeyOf(r) in l.active {
      assert OfFlow(before[0].report, KeyOf(r));
      assert arrivals[0] == before[0];
      assert l.world.st.flows[KeyOf(r)] == StateOf(before);
    }
  }

  lemma NoteReportSound(l: Ledger, r: PacketReport, now: int)
    requires Sound(l)
    ensures Sound(NoteReport(l, r, now)) && NoteReport(l, r, now).world == Next(l.world, Report(r, now))
  {
    hide Accumulate, StateOf, LogCut, Select, ToFeatures, KeyOf;
    var key := KeyOf(r);
    var arrivals := ActiveOf(l.active, key) + [Arrival(r, now)];
    AccumulateIsStateOf(l, r, now);
    var l' := NoteReport(l, r, now);
    assert StateOf(arrivals).totalPackets == |arrivals| by {
      StatePackets(arrivals);
    }
    if |arrivals| >= MAX_PACKETS {
      var s := Segment(key, arrivals, Returned, now);
      assert l.active[key := arrivals][key] == arrivals;
      assert l'.active == l.active - {key};
      assert l'.segments == l.segments + [s];
      CloseFiles(l.world, l.segments, s, l'.world);
    }
    forall k
      ensures LogCut(l', k)
    {
      assert LogCut(l, k);
      NoteReportCut(l, r, now, k);
    }
  }

  lemma StatePackets(arrivals: seq<Arrival>)
    requires arrivals != []
    ensures StateOf(arrivals).totalPackets == |arrivals|
  {
  }

  lemma StateFirst(arrivals: seq<Arrival>)
    requires arrivals != []
    ensures StateOf(arrivals).firstSeen == arrivals[0].now
  {
  }

  lemma NoteSweepKeySound(l: Ledger, now: int, key: FlowKey)
    requires Sound(l)
    ensures Sound(NoteSweepKey(l, now, key))
    ensures NoteSweepKey(l, now, key).world == l.world.(st := SweepKey(l.world.st, now, key))
    ensures NoteSweepKey(l, now, key).log == l.log
  {
    hide StateOf, LogCut, Select, ToFeatures;
    var l' := NoteSweepKey(l, now, key);
    if key in l.active && Expired(l.world.st.flows[key], now) {
      StatePackets(l.active[key]);
      StateFirst(l.active[key]);
      var s := Segment(key, l.active[key], if |l.active[key]| >= MIN_PACKETS then Ready else Thin, now);
      CloseFiles(l.world, l.segments, s, l'.world);
      var moved := l.(world := l'.world);
      forall k
        ensures LogCut(l', k)
      {
        assert LogCut(l, k);
        LogCutIgnoresWorld(l, l'.world, k);
        CloseKeepsCut(moved, key, s.fate, now, k);
      }
    } else {
      forall k
        ensures LogCut(l', k)
      {
        assert LogCut(l, k);
        LogCutIgnoresWorld(l, l'.world, k);
      }
    }
  }

  lemma LogCutIgnoresWorld(l: Ledger, w: World, k: FlowKey)
    ensures LogCut(l.(world := w), k) == LogCut(l, k)
  {
  }

  lemma {:induction false} NoteSweepSound(l: Ledger, now: int, order: seq<FlowKey>)
    requires Sound(l)
    ensures Sound(NoteSweep(l, now, order))
    ensures NoteSweep(l, now, order).world == l.world.(st := Sweep(l.world.st, now, order))
    ensures NoteSweep(l, now, order).log == l.log
    decreases |order|
  {
    hide Sound, NoteSweepKey, SweepKey;
    if order == [] {
    } else {
      NoteSweepKeySound(l, now, order[0]);
      NoteSweepSound(NoteSweepKey(l, now, order[0]), now, order[1..]);
    }
  }

  lemma MarkKeepsCuts(l: Ledger, w: World, from: Fate, to: Fate)
    requires forall key :: LogCut(l, key)
    ensures forall key :: LogCut(l.(world := w, segments := Mark(l.segments, from, to)), key)
  {
    forall key
      ensures LogCut(l.(world := w, segments := Mark(l.segments, from, to)), key)
    {
      assert LogCut(l, key);
      CutMark(l.segments, from, to, key);
    }
  }

  lemma MarkFiles(segments: seq<Segment>, from: Fate, to: Fate)
    requires AllWellSized(segments) && InOrder(segments) && Moves(from, to) && Select(segments, from) != []
    ensures AllWellSized(Mark(segments, from, to)) && InOrder(Mark(segments, from, to))
    ensures forall fate | fate != from && fate != to ::
      Select(Mark(segments, from, to), fate) == Select(segments, fate)
    ensures Select(Mark(segments, from, to), from) == Select(segments, from)[1..]
    ensures Select(Mark(segments, from, to), to) == Select(segments, to) + [Select(segments, from)[0]]
  {
    MarkKeepsSizes(segments, from, to);
    MarkKeepsOrder(segments, from, to);
    hide Select, Mark, AllWellSized, InOrder;
    forall fate
      ensures Select(Mark(segments, from, to), fate)
           == if fate == from then Select(segments, from)[1..]
              else if fate == to then Select(segments, to) + [Select(segments, from)[0]]
              else Select(segments, fate)
    {
      SelectMark(segments, from, to, fate);
    }
  }

  lemma NotePushSound(l: Ledger)
    requires Sound(l) && Enabled(l.world, PushOne)
    ensures Sound(Note(l, PushOne))
  {
    hide LogCut, Select, Mark, AllWellSized, InOrder, StateOf;
    var to := if |l.world.st.channel| < CHANNEL_CAPACITY then Queued else Lost;
    MarkFiles(l.segments, Ready, to);
    MarkKeepsCuts(l, Next(l.world, PushOne), Ready, to);
  }

  lemma NoteReceiveSound(l: Ledger)
    requires Sound(l) && Enabled(l.world, ReceiveOne)
    ensures Sound(Note(l, ReceiveOne))
  {
    hide LogCut, Select, Mark, AllWellSized, InOrder, StateOf;
    MarkFiles(l.segments, Queued, Delivered);
    MarkKeepsCuts(l, Next(l.world, ReceiveOne), Queued, Delivered);
  }

  lemma NoteSound(l: Ledger, a: Action)
    requires Sound(l) && Enabled(l.world, a)
    ensures Sound(Note(l, a)) && Note(l, a).world == Next(l.world, a)
    ensures Note(l, a).log == l.log + LogOf([a])
  {
    hide Sound, NoteSweep, Sweep, Ingest, Mark, Push, Receive;
    assert [a][1..] == [];
    match a
    case Report(r, now) => NoteReportSound(l, r, now);
    case Collect(now, order) => NoteSweepSound(l, now, order);
    case PushOne => NotePushSound(l);
    case ReceiveOne => NoteReceiveSound(l);
  }

  lemma {:induction false} LedgerOf(l: Ledger, actions: seq<Action>) returns (end: Ledger)
    requires Sound(l) && Schedule(l.world, actions)
    ensures Sound(end) && end.world == Run(l.world, actions) && end.log == l.log + LogOf(actions)
    decreases |actions|
  {
    hide Sound, Note, Next, Enabled;
    if actions == [] {
      end := l;
    } else {
      NoteSound(l, actions[0]);
      LogOfHead(actions);
      hide LogOf;
      end := LedgerOf(Note(l, actions[0]), actions[1..]);
      assert (l.log + LogOf([actions[0]])) + LogOf(actions[1..]) == l.log + (LogOf([actions[0]]) + LogOf(actions[1..]));
    }
  }

  lemma LogOfHead(actions: seq<Action>)
    requires actions != []
    ensures LogOf(actions) == LogOf([actions[0]]) + LogOf(actions[1..])
  {
  }

  // In every interleaving, the reports of each flow are exactly its closed segments end to end and
  // then the active one. Each closed segment was returned at its 200th report, or found expired by
  // a sweep and then thrown away as thin, or else lost on a full channel, or sits in ready, in the
  // channel or with a receiver. Each of those lists holds precisely the results of its segments, in
  // order, and every result carries the counters of its segment.
  lemma EveryReportAccountedFor(actions: seq<Action>)
    returns (segments: seq<Segment>, active: map<FlowKey, seq<Arrival>>)
    requires Schedule(START, actions)
    ensures forall key :: OfKey(LogOf(actions), key) == Cut(segments, key) + ActiveOf(active, key)
    ensures AllWellSized(segments) && InOrder(segments) && Filed(Run(START, actions), segments)
    ensures Run(START, actions).st.flows.Keys == active.Keys
    ensures forall key | key in active ::
      && 1 <= |active[key]| < 200 && AllOfKey(active[key], key)
      && Run(START, actions).st.flows[key] == StateOf(active[key])
  {
    var l := LedgerOf(Ledger(START, [], map[], []), actions);
    segments, active := l.segments, l.active;
    assert [] + LogOf(actions) == LogOf(actions);
    forall key
      ensures OfKey(LogOf(actions), key) == Cut(segments, key) + ActiveOf(active, key)
    {
      assert LogCut(l, key);
    }
  }

  // A push delivers unless 256 results are waiting, and only then loses the one it takes.
  lemma PushLosesIff(w: World)
    requires w.st.ready != []
    ensures var w', first := Next(w, PushOne), w.st.ready[0];
      && w'.st.ready == w.st.ready[1..]
      && (if |w.st.channel| < 256 then w'.st.channel == w.st.channel + [first] && w'.lost == w.lost
          else w'.st.channel == w.st.channel && w'.lost == w.lost + [first])
  {
  }

  // ----- What any result looks like -------------------------------------------------------------------------------

  lemma {:induction false} SelectedFrom(segments: seq<Segment>, fate: Fate, result: FlowResult) returns (i: nat)
    requires AllWellSized(segments) && result in Select(segments, fate)
    ensures i < |segments| && segments[i].fate == fate && WellSized(segments[i]) && result == ResultOf(segments[i])
  {
    if segments[0].fate == fate && result == ResultOf(segments[0]) {
      i := 0;
    } else {
      i := SelectedFrom(segments[1..], fate, result);
      i := i + 1;
    }
  }

  predicate Produced(w: World, result: FlowResult) {
    result in w.returned || result in w.st.ready || result in w.st.channel || result in w.delivered || result in w.lost
  }

  // A duration in seconds, at least a millisecond if it is not positive.
  function Seconds(elapsed: int): real {
    if elapsed <= 0 then 0.001 else elapsed as real / 1_000_000_000.0
  }

  // The features give the counters back: the mean times the count, and each rate times the
  // duration (at least a millisecond), are the totals.
  lemma RatesGiveTotals(s: FlowState)
    requires s.totalPackets > 0
    ensures var f, elapsed := ToFeatures(s), s.lastSeen - s.firstSeen;
            var seconds := Seconds(elapsed);
      && f.averagePacketSize * s.totalPackets as real == s.totalBytes as real
      && f.flowPacketsPerSecond * seconds == s.totalPackets as real
      && f.flowBytesPerSecond * seconds == s.totalBytes as real
  {
    var elapsed := s.lastSeen - s.firstSeen;
    var seconds := Seconds(elapsed);
    DivTimes(s.totalBytes as real, s.totalPackets as real);
    DivTimes(s.totalPackets as real, seconds);
    DivTimes(s.totalBytes as real, seconds);
  }

  // The duration is the whole microseconds of the elapsed time, whichever way the clock readings lie.
  lemma DurationInMicroseconds(s: FlowState) returns (us: int)
    ensures var f, elapsed := ToFeatures(s), s.lastSeen - s.firstSeen;
      && f.destinationPort == s.dstPort as real
      && f.totalFwdPackets == s.fwdPackets as real && f.totalLengthFwdPackets == s.fwdBytes as real
      && (s.totalPackets == 0 ==> f.averagePacketSize == 0.0)
      && f.flowDuration == us as real
      && if elapsed >= 0 then us * 1000 <= elapsed < (us + 1) * 1000 else us * 1000 >= elapsed > (us - 1) * 1000
  {
    us := Microseconds(s.lastSeen - s.firstSeen);
  }

  lemma DivTimes(x: real, y: real)
    requires y > 0.0
    ensures x / y * y == x
  {
  }

  // The segment behind a result.
  lemma SegmentOf(actions: seq<Action>, result: FlowResult) returns (key: FlowKey, arrivals: seq<Arrival>)
    requires Schedule(START, actions) && Produced(Run(START, actions), result)
    ensures 3 <= |arrivals| <= 200 && AllOfKey(arrivals, key)
    ensures result == Export(key, StateOf(arrivals)) && result.packetCount == |arrivals|
    ensures result in Run(START, actions).returned <==> |arrivals| == 200
  {
    hide ToFeatures;
    var w := Run(START, actions);
    var segments, active := EveryReportAccountedFor(actions);
    var i: nat;
    if result in w.returned {
      i := SelectedFrom(segments, Returned, result);
    } else if result in w.st.ready {
      i := SelectedFrom(segments, Ready, result);
    } else if result in w.st.channel {
      i := SelectedFrom(segments, Queued, result);
    } else if result in w.delivered {
      i := SelectedFrom(segments, Delivered, result);
    } else {
      i := SelectedFrom(segments, Lost, result);
    }
    key, arrivals := segments[i].key, segments[i].arrivals;
  }

  lemma CountersExported(key: FlowKey, arrivals: seq<Arrival>)
    requires arrivals != [] && AllOfKey(arrivals, key)
    ensures var f, elapsed := Export(key, StateOf(arrivals)).features, arrivals[|arrivals| - 1].now - arrivals[0].now;
            var seconds := Seconds(elapsed);
      && f.destinationPort == key.dstPort as real
      && f.totalFwdPackets == |arrivals| as real && f.totalLengthFwdPackets == Bytes(arrivals) as real
      && f.averagePacketSize * |arrivals| as real == Bytes(arrivals) as real
      && f.flowPacketsPerSecond * seconds == |arrivals| as real
      && f.flowBytesPerSecond * seconds == Bytes(arrivals) as real
  {
    hide ToFeatures, Seconds, Bytes;
    assert OfFlow(arrivals[0].report, key);
    RatesGiveTotals(StateOf(arrivals));
    var us := DurationInMicroseconds(StateOf(arrivals));
  }

  // Every result the aggregator can produce sums up between 3 and 200 reports of one flow: exactly
  // 200 when Ingest returns it, fewer when a sweep does, and never 200 * 2^32 bytes. Its key is the
  // four fields those reports share, and its features are their counters.
  lemma ResultsAreSegments(actions: seq<Action>, result: FlowResult) returns (key: FlowKey, arrivals: seq<Arrival>)
    requires Schedule(START, actions) && Produced(Run(START, actions), result)
    ensures 3 <= |arrivals| <= 200 && Bytes(arrivals) < 200 * 0x1_0000_0000
    ensures result == Export(key, StateOf(arrivals))
    ensures result.key == key && result.srcIP == key.srcIP && result.packetCount == |arrivals|
    ensures forall i | 0 <= i < |arrivals| :: var r := arrivals[i].report;
      r.srcIp == key.srcIP && r.dstIp == key.dstIP && r.dstPort == key.dstPort && r.protocol == key.protocol
    ensures var f, elapsed := result.features, arrivals[|arrivals| - 1].now - arrivals[0].now;
            var seconds := Seconds(elapsed);
      && f.destinationPort == key.dstPort as real
      && f.totalFwdPackets == |arrivals| as real && f.totalLengthFwdPackets == Bytes(arrivals) as real
      && f.averagePacketSize * |arrivals| as real == Bytes(arrivals) as real
      && f.flowPacketsPerSecond * seconds == |arrivals| as real
      && f.flowBytesPerSecond * seconds == Bytes(arrivals) as real
    ensures result in Run(START, actions).returned <==> |arrivals| == 200
  {
    hide ToFeatures, Seconds, StateOf, Run, Schedule, Produced;
    key, arrivals := SegmentOf(actions, result);
    BytesBound(arrivals);
    CountersExported(key, arrivals);
    forall i | 0 <= i < |arrivals|
      ensures OfFlow(arrivals[i].report, key)
    {
    }
  }

  // Active flows hold 1 to 199 packets, all counted as forward, and byte sums that fit easily.
  lemma ActiveFlowBounds(actions: seq<Action>, key: FlowKey)
    requires Schedule(START, actions) && key in Run(START, actions).st.flows
    ensures var s := Run(START, actions).st.flows[key];
      && 1 <= s.totalPackets < 200 && s.fwdPackets == s.totalPackets
      && 0 <= s.fwdBytes == s.totalBytes < 200 * 0x1_0000_0000
      && s.dstPort == key.dstPort
  {
    var l := LedgerOf(Ledger(START, [], map[], []), actions);
    assert key in l.active && OfFlow(l.active[key][0].report, key);
    BytesBound(l.active[key]);
  }

  // ----- Age -----------------------------------------------------------------------------------------

  const SWEEP_PERIOD := 2_500_000_000

  // The clock never goes back and the sweeps are at most half a window apart.
  ghost predicate Timed(actions: seq<Action>, clock: int, lastSweep: int)
    decreases |actions|
  {
    actions == [] ||
    match actions[0]
    case Report(_, now) => clock <= now && Timed(actions[1..], now, lastSweep)
    case Collect(now, _) => clock <= now <= lastSweep + SWEEP_PERIOD && Timed(actions[1..], now, now)
    case _ => Timed(actions[1..], clock, lastSweep)
  }

  function LastSweep(actions: seq<Action>, lastSweep: int): int {
    if actions == [] then lastSweep
    else LastSweep(actions[1..], if actions[0].Collect? then actions[0].now else lastSweep)
  }

  ghost predicate UnexpiredAt(flows: map<FlowKey, FlowState>, t: int) {
    forall key | key in flows :: !Expired(flows[key], t)
  }

  lemma StepKeepsUnexpired(w: World, a: Action, lastSweep: int)
    requires Enabled(w, a) && UnexpiredAt(w.st.flows, lastSweep)
    requires a.Report? ==> lastSweep <= a.now
    ensures UnexpiredAt(Next(w, a).st.flows, if a.Collect? then a.now else lastSweep)
  {
    match a
    case Report(r, now) =>
      var s := Accumulate(w.st.flows, r, now);
      assert !Expired(s, lastSweep);
    case Collect(now, order) => SweepLeavesUnexpired(w.st, now, order);
    case _ =>
  }

  lemma {:induction false} RunKeepsUnexpired(w: World, actions: seq<Action>, clock: int, lastSweep: int)
    requires Schedule(w, actions) && Timed(actions, clock, lastSweep) && lastSweep <= clock
    requires UnexpiredAt(w.st.flows, lastSweep)
    ensures UnexpiredAt(Run(w, actions).st.flows, LastSweep(actions, lastSweep))
    decreases |actions|
  {
    hide UnexpiredAt, Next, Enabled;
    if actions == [] {
    } else {
      StepKeepsUnexpired(w, actions[0], lastSweep);
      var swept := if actions[0].Collect? then actions[0].now else lastSweep;
      RunKeepsUnexpired(Next(w, actions[0]), actions[1..],
                        if actions[0].Report? || actions[0].Collect? then actions[0].now else clock, swept);
    }
  }

  // With such a clock every active flow is younger than 7.5 s until the next sweep is due.
  lemma FlowsStayYoung(actions: seq<Action>, start: int, now: int)
    requires Schedule(START, actions) && Timed(actions, start, start)
    requires now <= LastSweep(actions, start) + SWEEP_PERIOD
    ensures var flows := Run(START, actions).st.flows;
      forall key | key in flows :: now - flows[key].firstSeen < 7_500_000_000
  {
    RunKeepsUnexpired(START, actions, start, start);
    var flows := Run(START, actions).st.flows;
    forall key | key in flows
      ensures now - flows[key].firstSeen < 7_500_000_000
    {
      assert !Expired(flows[key], LastSweep(actions, start));
    }
  }
}
