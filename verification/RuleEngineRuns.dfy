/** Whole runs of the rule engine: packets of any sources, and reloads of the rules file. */
module RuleEngineRuns {
  import opened Wrappers
  import opened Proto
  import opened RuleEngine
  import SlidingWindow

  datatype Event = Packet(report: PacketReport, clock: Clock) | Reload(file: FileRead)
  datatype State = State(rules: seq<Rule>, history: History)

  function Step(lib: Library, st: State, e: Event): State {
    match e
    case Packet(r, clock) => st.(history := Scan(lib, st.rules, st.history, r, clock, 0).history)
    case Reload(file) => if Loaded(lib, file).Some? then State(Loaded(lib, file).value, map[]) else st
  }

  function Run(lib: Library, st: State, es: seq<Event>): State
    decreases |es|
  {
    if es == [] then st else Run(lib, Step(lib, st, es[0]), es[1..])
  }

  // What the engine answers to each packet, in order.
  function Answer(lib: Library, st: State, e: Event): seq<Option<ActionCommand>> {
    match e
    case Packet(r, clock) => [Reply(lib, Scan(lib, st.rules, st.history, r, clock, 0), r)]
    case Reload(_) => []
  }

  function Replies(lib: Library, st: State, es: seq<Event>): seq<Option<ActionCommand>>
    decreases |es|
  {
    if es == [] then [] else Answer(lib, st, es[0]) + Replies(lib, Step(lib, st, es[0]), es[1..])
  }

  // The answer comes from a rule that matches, ahead of every stateless rule that does; and a
  // packet goes unanswered only if no stateless rule matches it.
  lemma {:induction false} AnswerIsFirstMatch(lib: Library, rules: seq<Rule>, h: History, r: PacketReport,
                                              clock: Clock, n: nat)
    ensures match Scan(lib, rules, h, r, clock, n).answer
      case Some(rule) =>
        exists k | 0 <= k < |rules| :: rules[k] == rule && Matches(lib, rule, r) && Effective(rule)
          && forall j | 0 <= j < k && rules[j].threshold.None? :: !Matches(lib, rules[j], r)
      case None => forall j | 0 <= j < |rules| && rules[j].threshold.None? :: !Matches(lib, rules[j], r)
    decreases |rules|
  {
    hide Matches, SlidingWindow.Hit, WindowNs, Store, Stamps, Reads;
    if rules == [] {
    } else {
      var o := Try(lib, rules[0], h, r, clock(n));
      if o.answer.None? {
        AnswerIsFirstMatch(lib, rules[1..], o.history, r, clock, n + Reads(lib, rules[0], r));
        var answer := Scan(lib, rules[1..], o.history, r, clock, n + Reads(lib, rules[0], r)).answer;
        assert forall j | 1 <= j < |rules| :: rules[j] == rules[1..][j - 1];
        if answer.Some? {
          var k :| 0 <= k < |rules| - 1 && rules[1..][k] == answer.value
                   && forall j | 0 <= j < k && rules[1..][j].threshold.None? :: !Matches(lib, rules[1..][j], r);
          assert rules[k + 1] == answer.value;
        }
      }
    }
  }

  lemma StampsOfStore(h: History, id: string, src: string, stamps: seq<int>, id': string, src': string)
    ensures Stamps(Store(h, id, src, stamps), id', src')
         == if id' == id && src' == src then stamps else Stamps(h, id', src')
  {
  }

  ghost predicate Forward(clock: Clock) {
    forall m: nat, m': nat | m <= m' :: clock(m) <= clock(m')
  }

  // The clock is read under the engine's mutex, so times never go back, within a scan or between two.
  // (Readings that a scan does not get to are free, so they may be taken to repeat the last one.)
  ghost predicate Clocked(es: seq<Event>, start: int) {
    && (forall i, m: nat | 0 <= i < |es| && es[i].Packet? :: start <= es[i].clock(m))
    && (forall i | 0 <= i < |es| && es[i].Packet? :: Forward(es[i].clock))
    && (forall i, j, m: nat, m': nat | 0 <= i < j < |es| && es[i].Packet? && es[j].Packet? ::
          es[i].clock(m) <= es[j].clock(m'))
  }

  // ----- Pruning never changes an answer ------------------------------------------------------------

  // Rules with the same ID share one history; they must then share the window too.
  ghost predicate SharedWindows(rules: seq<Rule>) {
    forall i, j | 0 <= i < |rules| && 0 <= j < |rules|
                  && Counts(rules[i]) && Counts(rules[j]) && rules[i].id == rules[j].id ::
      WindowNs(rules[i].threshold.value) == WindowNs(rules[j].threshold.value)
  }

  ghost predicate DistinctIds(rules: seq<Rule>) {
    forall i, j | 0 <= i < j < |rules| :: rules[i].id != rules[j].id
  }

  lemma DistinctIdsShareWindows(rules: seq<Rule>)
    requires DistinctIds(rules)
    ensures SharedWindows(rules)
  {
  }

  // The reference engine: the same scan over the full log of hits since the last trigger or reload.
  function FullTry(lib: Library, rule: Rule, log: History, r: PacketReport, now: int): Outcome {
    if !Matches(lib, rule, r) || Ignored(rule) then Outcome(log, None)
    else match rule.threshold
      case None => Outcome(log, Some(rule))
      case Some(t) =>
        var (hits, fired) := SlidingWindow.FullHit(Stamps(log, rule.id, r.srcIp), now, WindowNs(t), t.packets);
        Outcome(Store(log, rule.id, r.srcIp, hits), if fired then Some(rule) else None)
  }

  function FullScan(lib: Library, rules: seq<Rule>, log: History, r: PacketReport, clock: Clock, n: nat): (o: Outcome)
    ensures o.answer.Some? ==> !Ignored(o.answer.value)
    decreases |rules|
  {
    if rules == [] then Outcome(log, None)
    else
      var o := FullTry(lib, rules[0], log, r, clock(n));
      if o.answer.Some? then o else FullScan(lib, rules[1..], o.history, r, clock, n + Reads(lib, rules[0], r))
  }

  function FullReplies(lib: Library, st: State, es: seq<Event>): seq<Option<ActionCommand>>
    decreases |es|
  {
    if es == [] then []
    else match es[0]
      case Packet(r, clock) =>
        var o := FullScan(lib, st.rules, st.history, r, clock, 0);
        [Reply(lib, o, r)] + FullReplies(lib, st.(history := o.history), es[1..])
      case Reload(_) => FullReplies(lib, Step(lib, st, es[0]), es[1..])
  }

  ghost predicate AgreeOn(rule: Rule, h: History, log: History, now: int)
    requires Counts(rule)
  {
    forall src :: SlidingWindow.SameFrom(Stamps(h, rule.id, src), Stamps(log, rule.id, src),
                                         now - WindowNs(rule.threshold.value))
  }

  ghost predicate Agree(rules: seq<Rule>, h: History, log: History, now: int) {
    forall k | 0 <= k < |rules| && Counts(rules[k]) :: AgreeOn(rules[k], h, log, now)
  }

  // The hit on rule k does not trigger and drops a time that another rule with its ID still needs.
  ghost predicate Lossy(lib: Library, rules: seq<Rule>, k: nat, h: History, r: PacketReport, now: int)
    requires k < |rules|
  {
    var rule := rules[k];
    && Matches(lib, rule, r) && Counts(rule) && Try(lib, rule, h, r, now).answer.None?
    && exists j | 0 <= j < |rules| && Counts(rules[j]) && rules[j].id == rule.id ::
         SlidingWindow.Loses(Stamps(h, rule.id, r.srcIp) + [now],
                             now - WindowNs(rule.threshold.value), now - WindowNs(rules[j].threshold.value))
  }

  lemma TryAgreesIff(lib: Library, rules: seq<Rule>, k: nat, h: History, log: History, r: PacketReport, now: int)
    requires k < |rules| && Agree(rules, h, log, now)
    ensures var o, full := Try(lib, rules[k], h, r, now), FullTry(lib, rules[k], log, r, now);
      && o.answer == full.answer
      && (Agree(rules, o.history, full.history, now) <==> !Lossy(lib, rules, k, h, r, now))
  {
    hide Matches, WindowNs, Stamps, Store;
    hide SlidingWindow.SameFrom, SlidingWindow.Loses, SlidingWindow.Hit, SlidingWindow.FullHit;
    var rule := rules[k];
    if Matches(lib, rule, r) && Counts(rule) {
      var t := rule.threshold.value;
      var stamps, hits := Stamps(h, rule.id, r.srcIp), Stamps(log, rule.id, r.srcIp);
      assert AgreeOn(rule, h, log, now);
      SlidingWindow.HitAgrees(stamps, hits, now, now, WindowNs(t), t.packets);
      var fired := SlidingWindow.Hit(stamps, now, WindowNs(t), t.packets).1;
      var h', log' := Try(lib, rule, h, r, now).history, FullTry(lib, rule, log, r, now).history;
      forall j | 0 <= j < |rules| && Counts(rules[j])
        ensures AgreeOn(rules[j], h', log', now)
                <==> !(rules[j].id == rule.id && !fired
                       && SlidingWindow.Loses(stamps + [now], now - WindowNs(t),
                                              now - WindowNs(rules[j].threshold.value)))
      {
        AgreeAfterHit(rules[j], h, log, now, rule, r.srcIp, fired);
      }
      hide AgreeOn, Try, FullTry;
    }
  }

  lemma AgreeAfterHit(other: Rule, h: History, log: History, now: int, rule: Rule, src: string, fired: bool)
    requires Counts(other) && Counts(rule) && AgreeOn(other, h, log, now)
    requires var t := rule.threshold.value;
      && SlidingWindow.Hit(Stamps(h, rule.id, src), now, WindowNs(t), t.packets).1 == fired
      && SlidingWindow.FullHit(Stamps(log, rule.id, src), now, WindowNs(t), t.packets).1 == fired
    ensures var t, stamps, hits := rule.threshold.value, Stamps(h, rule.id, src), Stamps(log, rule.id, src);
            var h' := Store(h, rule.id, src, SlidingWindow.Hit(stamps, now, WindowNs(t), t.packets).0);
            var log' := Store(log, rule.id, src, SlidingWindow.FullHit(hits, now, WindowNs(t), t.packets).0);
      AgreeOn(other, h', log', now)
      <==> !(other.id == rule.id && !fired
             && SlidingWindow.Loses(stamps + [now], now - WindowNs(t), now - WindowNs(other.threshold.value)))
  {
    var t, from := rule.threshold.value, now - WindowNs(other.threshold.value);
    var stamps, hits := Stamps(h, rule.id, src), Stamps(log, rule.id, src);
    var stamps' := SlidingWindow.Hit(stamps, now, WindowNs(t), t.packets).0;
    var hits' := SlidingWindow.FullHit(hits, now, WindowNs(t), t.packets).0;
    if fired {
      assert SlidingWindow.SameFrom(stamps', hits', from);
    } else if other.id == rule.id {
      assert SlidingWindow.SameFrom(stamps, hits, from);
      SlidingWindow.HitLosesIff(stamps, hits, now, WindowNs(t), t.packets, WindowNs(other.threshold.value));
    }
    hide SlidingWindow.Hit, SlidingWindow.FullHit, WindowNs, Stamps, Store, SlidingWindow.SameFrom, SlidingWindow.Loses;
    forall x
      ensures Stamps(Store(h, rule.id, src, stamps'), other.id, x)
              == if other.id == rule.id && x == src then stamps' else Stamps(h, other.id, x)
      ensures Stamps(Store(log, rule.id, src, hits'), other.id, x)
              == if other.id == rule.id && x == src then hits' else Stamps(log, other.id, x)
    {
      StampsOfStore(h, rule.id, src, stamps', other.id, x);
      StampsOfStore(log, rule.id, src, hits', other.id, x);
    }
  }

  // Some hit in the scan from rule k on is lossy.
  ghost predicate LossyScan(lib: Library, rules: seq<Rule>, k: nat, h: History, r: PacketReport, clock: Clock, n: nat)
    requires k <= |rules|
    decreases |rules| - k
  {
    k < |rules| &&
    (|| Lossy(lib, rules, k, h, r, clock(n))
     || var o := Try(lib, rules[k], h, r, clock(n));
        o.answer.None? && LossyScan(lib, rules, k + 1, o.history, r, clock, n + Reads(lib, rules[k], r)))
  }

  // The pruned history and the full log agree after every rule of the scan.
  ghost predicate ScanKeepsAgreeing(lib: Library, rules: seq<Rule>, k: nat, h: History, log: History,
                                    r: PacketReport, clock: Clock, n: nat)
    requires k <= |rules|
    decreases |rules| - k
  {
    k < |rules| ==>
      var o, full := Try(lib, rules[k], h, r, clock(n)), FullTry(lib, rules[k], log, r, clock(n));
      && Agree(rules, o.history, full.history, clock(n))
      && (o.answer.None? ==>
            ScanKeepsAgreeing(lib, rules, k + 1, o.history, full.history, r, clock, n + Reads(lib, rules[k], r)))
  }

  lemma AgreeLater(rules: seq<Rule>, h: History, log: History, past: int, now: int)
    requires Agree(rules, h, log, past) && past <= now
    ensures Agree(rules, h, log, now)
  {
  }

  lemma {:induction false} ScanAgreesIff(lib: Library, rules: seq<Rule>, k: nat, h: History, log: History,
                                         r: PacketReport, clock: Clock, n: nat)
    requires k <= |rules| && Forward(clock) && Agree(rules, h, log, clock(n))
    ensures ScanKeepsAgreeing(lib, rules, k, h, log, r, clock, n) <==> !LossyScan(lib, rules, k, h, r, clock, n)
    ensures var o, full := Scan(lib, rules[k..], h, r, clock, n), FullScan(lib, rules[k..], log, r, clock, n);
      !LossyScan(lib, rules, k, h, r, clock, n) ==>
        o.answer == full.answer && Agree(rules, o.history, full.history, clock(n + |rules| - k))
    decreases |rules| - k
  {
    hide Agree, Try, FullTry, Lossy, Reads;
    if k == |rules| {
    } else {
      TryAgreesIff(lib, rules, k, h, log, r, clock(n));
      assert rules[k..][1..] == rules[k + 1..];
      if !Lossy(lib, rules, k, h, r, clock(n)) {
        var n' := n + Reads(lib, rules[k], r);
        var h', log' := Try(lib, rules[k], h, r, clock(n)).history, FullTry(lib, rules[k], log, r, clock(n)).history;
        ReadsAtMostOnce(lib, rules[k], r);
        AgreeLater(rules, h', log', clock(n), clock(n'));
        AgreeLater(rules, h', log', clock(n), clock(n + |rules| - k));
        ScanAgreesIff(lib, rules, k + 1, h', log', r, clock, n');
        var o := Scan(lib, rules[k + 1..], h', r, clock, n');
        var full := FullScan(lib, rules[k + 1..], log', r, clock, n');
        if !LossyScan(lib, rules, k + 1, h', r, clock, n') {
          AgreeLater(rules, o.history, full.history, clock(n' + |rules| - (k + 1)), clock(n + |rules| - k));
        }
      }
    }
  }

  lemma ReadsAtMostOnce(lib: Library, rule: Rule, r: PacketReport)
    ensures Reads(lib, rule, r) <= 1
  {
  }

  ghost predicate LossyRun(lib: Library, st: State, es: seq<Event>)
    decreases |es|
  {
    es != [] &&
    ((es[0].Packet? && LossyScan(lib, st.rules, 0, st.history, es[0].report, es[0].clock, 0))
     || LossyRun(lib, Step(lib, st, es[0]), es[1..]))
  }

  // The two histories agree after every rule of every scan of the run.
  ghost predicate AlwaysAgreeing(lib: Library, st: State, log: History, es: seq<Event>)
    decreases |es|
  {
    es != [] ==>
      match es[0]
      case Packet(r, clock) =>
        && ScanKeepsAgreeing(lib, st.rules, 0, st.history, log, r, clock, 0)
        && AlwaysAgreeing(lib, Step(lib, st, es[0]), FullScan(lib, st.rules, log, r, clock, 0).history, es[1..])
      case Reload(_) =>
        AlwaysAgreeing(lib, Step(lib, st, es[0]), Step(lib, st.(history := log), es[0]).history, es[1..])
  }

  // Over whole runs with reloads: pruning leaves the history as good as the full log at every moment
  // if and only if no hit is lossy, and then every answer is the one the full log gives.
  lemma {:induction false} PrunedHistoryIff(lib: Library, st: State, log: History, es: seq<Event>, past: int)
    requires Clocked(es, past) && Agree(st.rules, st.history, log, past)
    ensures AlwaysAgreeing(lib, st, log, es) <==> !LossyRun(lib, st, es)
    ensures !LossyRun(lib, st, es) ==> Replies(lib, st, es) == FullReplies(lib, st.(history := log), es)
    decreases |es|
  {
    if es == [] {
    } else {
      match es[0] {
        case Packet(r, clock) =>
          var later := clock(|st.rules|);
          AgreeLater(st.rules, st.history, log, past, clock(0));
          ScanAgreesIff(lib, st.rules, 0, st.history, log, r, clock, 0);
          assert st.rules[0..] == st.rules;
          hide Agree, Scan, FullScan, LossyScan, ScanKeepsAgreeing;
          if !LossyScan(lib, st.rules, 0, st.history, r, clock, 0) {
            var log' := FullScan(lib, st.rules, log, r, clock, 0).history;
            PrunedHistoryIff(lib, Step(lib, st, es[0]), log', es[1..], later);
          }
        case Reload(file) =>
          hide Loaded, LossyScan, ScanKeepsAgreeing;
          var log' := Step(lib, st.(history := log), es[0]).history;
          assert Agree(Step(lib, st, es[0]).rules, Step(lib, st, es[0]).history, log', past);
          hide Agree;
          PrunedHistoryIff(lib, Step(lib, st, es[0]), log', es[1..], past);
      }
    }
  }

  ghost predicate LoadsShareWindows(lib: Library, es: seq<Event>) {
    forall i | 0 <= i < |es| && es[i].Reload? && Loaded(lib, es[i].file).Some? ::
      SharedWindows(Loaded(lib, es[i].file).value)
  }

  lemma {:induction false} SharedWindowsNeverLose(lib: Library, rules: seq<Rule>, k: nat, h: History,
                                                  r: PacketReport, clock: Clock, n: nat)
    requires k <= |rules| && SharedWindows(rules)
    ensures !LossyScan(lib, rules, k, h, r, clock, n)
    decreases |rules| - k
  {
    hide Matches, WindowNs, Stamps, SlidingWindow.Hit, Store;
    if k == |rules| {
    } else {
      var h' := Try(lib, rules[k], h, r, clock(n)).history;
      SharedWindowsNeverLose(lib, rules, k + 1, h', r, clock, n + Reads(lib, rules[k], r));
    }
  }

  lemma {:induction false} SharedWindowsRun(lib: Library, st: State, es: seq<Event>)
    requires SharedWindows(st.rules) && LoadsShareWindows(lib, es)
    ensures !LossyRun(lib, st, es)
    decreases |es|
  {
    hide SharedWindows, Loaded, Scan, LossyScan;
    if es == [] {
    } else {
      if es[0].Packet? {
        SharedWindowsNeverLose(lib, st.rules, 0, st.history, es[0].report, es[0].clock, 0);
      }
      SharedWindowsRun(lib, Step(lib, st, es[0]), es[1..]);
    }
  }

  // Discarding old timestamps then never changes an outcome: a threshold fires exactly when the hits
  // of that source on that rule since the last trigger or reload, counted from the full log over
  // the window ending now, reach `packets`.
  lemma PrunedHistoryIsExact(lib: Library, rules: seq<Rule>, es: seq<Event>, start: int)
    requires SharedWindows(rules) && LoadsShareWindows(lib, es) && Clocked(es, start)
    ensures Replies(lib, State(rules, map[]), es) == FullReplies(lib, State(rules, map[]), es)
  {
    SharedWindowsRun(lib, State(rules, map[]), es);
    PrunedHistoryIff(lib, State(rules, map[]), map[], es, start);
  }

  ghost predicate LoadsDistinct(lib: Library, es: seq<Event>) {
    forall i | 0 <= i < |es| && es[i].Reload? && Loaded(lib, es[i].file).Some? ::
      DistinctIds(Loaded(lib, es[i].file).value)
  }

  // Distinct IDs are enough, in the rules at the start and in every file that is accepted later.
  lemma DistinctIdsAreExact(lib: Library, rules: seq<Rule>, es: seq<Event>, start: int)
    requires DistinctIds(rules) && LoadsDistinct(lib, es) && Clocked(es, start)
    ensures Replies(lib, State(rules, map[]), es) == FullReplies(lib, State(rules, map[]), es)
  {
    DistinctIdsShareWindows(rules);
    forall i | 0 <= i < |es| && es[i].Reload? && Loaded(lib, es[i].file).Some?
      ensures SharedWindows(Loaded(lib, es[i].file).value)
    {
      DistinctIdsShareWindows(Loaded(lib, es[i].file).value);
    }
    PrunedHistoryIsExact(lib, rules, es, start);
  }

  // A rule without conditions, which every packet matches.
  function CatchAll(id: string, packets: int, windowSeconds: int): Rule {
    Rule(id, "", "", "", "", 0, 0, "", "", "", "", "", None, "BLOCK", 60, 0, "",
         Some(Threshold(packets, windowSeconds)))
  }

  // A clock that stands still during a scan.
  function At(now: int): Clock {
    n => now
  }

  // Nothing stops a file from giving two rules one ID. When their windows differ the shorter one
  // prunes hits the longer one still needs: two packets 5 s apart make four hits within 10 s, and
  // the second rule, due at four, stays silent.
  lemma SharedIdLosesHits(lib: Library, r: PacketReport)
    ensures var rules := [CatchAll("x", 3, 1), CatchAll("x", 4, 10)];
            var es := [Packet(r, At(0)), Packet(r, At(5_000_000_000))];
      && Replies(lib, State(rules, map[]), es) == [None, None]
      && FullReplies(lib, State(rules, map[]), es)
         == [None, Some(CommandFor(lib, CatchAll("x", 4, 10), r))]
  {
    var h := FirstOfTwo(lib, r);
    SecondOfTwo(lib, r, h);
    hide Scan, FullScan, CatchAll, CommandFor;
    RepliesTwo(lib, [CatchAll("x", 3, 1), CatchAll("x", 4, 10)], r, At(0), At(5_000_000_000));
  }

  lemma FirstOfTwo(lib: Library, r: PacketReport) returns (h: History)
    ensures var rules := [CatchAll("x", 3, 1), CatchAll("x", 4, 10)];
      && Stamps(h, "x", r.srcIp) == [0, 0]
      && Scan(lib, rules, map[], r, At(0), 0) == Outcome(h, None)
      && FullScan(lib, rules, map[], r, At(0), 0) == Outcome(h, None)
  {
    var h1 := CatchAllHit(lib, "x", 3, 1, map[], [], r, 0, [0]);
    h := CatchAllHit(lib, "x", 4, 10, h1, [0], r, 0, [0, 0]);
    hide Try, FullTry, Scan, FullScan, Stamps, Store;
    ScanTwo(lib, CatchAll("x", 3, 1), CatchAll("x", 4, 10), map[], r, 0);
  }

  lemma SecondOfTwo(lib: Library, r: PacketReport, h: History)
    requires Stamps(h, "x", r.srcIp) == [0, 0]
    ensures var rules := [CatchAll("x", 3, 1), CatchAll("x", 4, 10)];
      && Scan(lib, rules, h, r, At(5_000_000_000), 0).answer == None
      && FullScan(lib, rules, h, r, At(5_000_000_000), 0).answer == Some(CatchAll("x", 4, 10))
  {
    hide Scan, FullScan, SlidingWindow.Prune;
    var a, b, late := CatchAll("x", 3, 1), CatchAll("x", 4, 10), 5_000_000_000;
    ScanTwo(lib, a, b, h, r, late);
    PruneKeepsLast([0, 0], late, 4_000_000_000);
    var h3 := CatchAllHit(lib, "x", 3, 1, h, [0, 0], r, late, [late]);
    var _ := CatchAllHit(lib, "x", 4, 10, h3, [late], r, late, [late, late]);
    FullLogOfTwo(lib, r, h);
  }

  lemma FullLogOfTwo(lib: Library, r: PacketReport, h: History)
    requires Stamps(h, "x", r.srcIp) == [0, 0]
    ensures var o := FullTry(lib, CatchAll("x", 3, 1), h, r, 5_000_000_000);
      && o.answer == None
      && FullTry(lib, CatchAll("x", 4, 10), o.history, r, 5_000_000_000).answer == Some(CatchAll("x", 4, 10))
  {
    hide SlidingWindow.Prune, Store;
    var late := 5_000_000_000;
    WindowWithoutWrap(Threshold(3, 1));
    WindowWithoutWrap(Threshold(4, 10));
    PruneKeepsLast([0, 0], late, 4_000_000_000);
    SlidingWindow.PruneKeepsAll([0, 0, late, late], -5_000_000_000);
    StampsOfStore(h, "x", r.srcIp, [0, 0, late], "x", r.srcIp);
    assert [0, 0] + [late] == [0, 0, late] && [0, 0, late] + [late] == [0, 0, late, late];
    assert Matches(lib, CatchAll("x", 3, 1), r) && Matches(lib, CatchAll("x", 4, 10), r);
    hide Matches, WindowNs, Stamps;
  }

  // A hit that does not trigger and is pruned to `kept`; the full log does the same when nothing is pruned.
  lemma CatchAllHit(lib: Library, id: string, packets: int, seconds: int, h: History, stamps: seq<int>,
                    r: PacketReport, now: int, kept: seq<int>) returns (h': History)
    requires 0 < seconds < 100 && |kept| < packets && Stamps(h, id, r.srcIp) == stamps
    requires (kept == stamps + [now] && forall i | 0 <= i < |kept| :: kept[i] > now - seconds * 1_000_000_000)
             || SlidingWindow.Prune(stamps + [now], now - seconds * 1_000_000_000) == kept
    ensures h' == Store(h, id, r.srcIp, kept) && Stamps(h', id, r.srcIp) == kept
    ensures Matches(lib, CatchAll(id, packets, seconds), r)
    ensures WindowNs(Threshold(packets, seconds)) == seconds * 1_000_000_000
    ensures Try(lib, CatchAll(id, packets, seconds), h, r, now) == Outcome(h', None)
    ensures kept == stamps + [now] ==> FullTry(lib, CatchAll(id, packets, seconds), h, r, now) == Outcome(h', None)
  {
    h' := Store(h, id, r.srcIp, kept);
    WindowWithoutWrap(Threshold(packets, seconds));
    if forall i | 0 <= i < |kept| :: kept[i] > now - seconds * 1_000_000_000 {
      SlidingWindow.PruneKeepsAll(kept, now - seconds * 1_000_000_000);
    }
    assert Matches(lib, CatchAll(id, packets, seconds), r);
    hide Matches, WindowNs, SlidingWindow.Prune;
  }

  lemma PruneKeepsLast(early: seq<int>, now: int, cutoff: int)
    requires now > cutoff && forall i | 0 <= i < |early| :: early[i] <= cutoff
    ensures SlidingWindow.Prune(early + [now], cutoff) == [now]
  {
    if early == [] {
      SlidingWindow.PruneKeepsAll([now], cutoff);
      assert early + [now] == [now];
    } else {
      PruneKeepsLast(early[1..], now, cutoff);
      assert (early + [now])[1..] == early[1..] + [now];
    }
  }

  lemma ScanTwo(lib: Library, a: Rule, b: Rule, h: History, r: PacketReport, now: int)
    ensures var o := Try(lib, a, h, r, now);
      Scan(lib, [a, b], h, r, At(now), 0) == if o.answer.Some? then o else Try(lib, b, o.history, r, now)
    ensures var o := FullTry(lib, a, h, r, now);
      FullScan(lib, [a, b], h, r, At(now), 0) == if o.answer.Some? then o else FullTry(lib, b, o.history, r, now)
  {
    hide Matches, Store, Stamps, WindowNs, Reads;
    var o, full, n := Try(lib, a, h, r, now), FullTry(lib, a, h, r, now), Reads(lib, a, r);
    var n' := n + Reads(lib, b, r);
    assert [a, b][1..] == [b] && [b][1..] == [];
    assert Scan(lib, [], Try(lib, b, o.history, r, now).history, r, At(now), n').answer == None;
    assert Scan(lib, [b], o.history, r, At(now), n) == Try(lib, b, o.history, r, now);
    assert FullScan(lib, [], FullTry(lib, b, full.history, r, now).history, r, At(now), n').answer == None;
    assert FullScan(lib, [b], full.history, r, At(now), n) == FullTry(lib, b, full.history, r, now);
  }

  lemma RepliesTwo(lib: Library, rules: seq<Rule>, r: PacketReport, c: Clock, c': Clock)
    ensures var first := Scan(lib, rules, map[], r, c, 0);
      Replies(lib, State(rules, map[]), [Packet(r, c), Packet(r, c')])
      == [Reply(lib, first, r), Reply(lib, Scan(lib, rules, first.history, r, c', 0), r)]
    ensures var first := FullScan(lib, rules, map[], r, c, 0);
      FullReplies(lib, State(rules, map[]), [Packet(r, c), Packet(r, c')])
      == [Reply(lib, first, r), Reply(lib, FullScan(lib, rules, first.history, r, c', 0), r)]
  {
    hide Scan, FullScan, Reply;
    var es := [Packet(r, c), Packet(r, c')];
    assert es[1..] == [Packet(r, c')] && es[1..][1..] == [];
    var st := Step(lib, State(rules, map[]), es[0]);
    assert Replies(lib, Step(lib, st, es[1]), []) == [];
    assert Replies(lib, st, es[1..]) == Answer(lib, st, es[1]) + [];
    var log := State(rules, FullScan(lib, rules, map[], r, c, 0).history);
    assert FullReplies(lib, log.(history := FullScan(lib, rules, log.history, r, c', 0).history), []) == [];
    assert FullReplies(lib, log, es[1..]) == [Reply(lib, FullScan(lib, rules, log.history, r, c', 0), r)] + [];
  }

  // ----- One source at a time -------------------------------------------------------------------------

  // The packets of one source, and every reload.
  function Only(es: seq<Event>, src: string): seq<Event> {
    if es == [] then []
    else (if es[0].Packet? && es[0].report.srcIp != src then [] else [es[0]]) + Only(es[1..], src)
  }

  // What the engine answers to the packets of one source in the whole run.
  function RepliesTo(lib: Library, st: State, es: seq<Event>, src: string): seq<Option<ActionCommand>>
    decreases |es|
  {
    if es == [] then []
    else (if es[0].Packet? && es[0].report.srcIp != src then [] else Answer(lib, st, es[0]))
         + RepliesTo(lib, Step(lib, st, es[0]), es[1..], src)
  }

  ghost predicate SameFor(h: History, h': History, src: string) {
    forall id :: Stamps(h, id, src) == Stamps(h', id, src)
  }

  lemma {:induction false} ScanOfAnother(lib: Library, rules: seq<Rule>, h: History, r: PacketReport,
                                         clock: Clock, n: nat, src: string)
    requires r.srcIp != src
    ensures SameFor(Scan(lib, rules, h, r, clock, n).history, h, src)
    decreases |rules|
  {
    hide Matches, SlidingWindow.Hit, WindowNs, Reads;
    if rules == [] {
    } else {
      var o := Try(lib, rules[0], h, r, clock(n));
      ScanOfAnother(lib, rules[1..], o.history, r, clock, n + Reads(lib, rules[0], r), src);
      assert SameFor(o.history, h, src);
    }
  }

  lemma TrySame(lib: Library, rule: Rule, h: History, h': History, r: PacketReport, now: int)
    requires SameFor(h, h', r.srcIp)
    ensures var o, o' := Try(lib, rule, h, r, now), Try(lib, rule, h', r, now);
      o.answer == o'.answer && SameFor(o.history, o'.history, r.srcIp)
  {
    hide Matches, Stamps, Store, SlidingWindow.Hit, WindowNs;
    assert Stamps(h, rule.id, r.srcIp) == Stamps(h', rule.id, r.srcIp);
    if Matches(lib, rule, r) && Counts(rule) {
      var t := rule.threshold.value;
      var stamps := SlidingWindow.Hit(Stamps(h, rule.id, r.srcIp), now, WindowNs(t), t.packets).0;
      forall id
        ensures Stamps(Store(h, rule.id, r.srcIp, stamps), id, r.srcIp)
             == Stamps(Store(h', rule.id, r.srcIp, stamps), id, r.srcIp)
      {
        StampsOfStore(h, rule.id, r.srcIp, stamps, id, r.srcIp);
        StampsOfStore(h', rule.id, r.srcIp, stamps, id, r.srcIp);
      }
    }
  }

  lemma {:induction false} ScanSame(lib: Library, rules: seq<Rule>, h: History, h': History, r: PacketReport,
                                    clock: Clock, n: nat)
    requires SameFor(h, h', r.srcIp)
    ensures var o, o' := Scan(lib, rules, h, r, clock, n), Scan(lib, rules, h', r, clock, n);
      o.answer == o'.answer && SameFor(o.history, o'.history, r.srcIp)
    decreases |rules|
  {
    hide Try, SameFor;
    if rules == [] {
    } else {
      TrySame(lib, rules[0], h, h', r, clock(n));
      var o, o' := Try(lib, rules[0], h, r, clock(n)), Try(lib, rules[0], h', r, clock(n));
      ScanSame(lib, rules[1..], o.history, o'.history, r, clock, n + Reads(lib, rules[0], r));
    }
  }

  lemma {:induction false} ProjectedFrom(lib: Library, st: State, h': History, es: seq<Event>, src: string)
    requires SameFor(st.history, h', src)
    ensures RepliesTo(lib, st, es, src) == Replies(lib, st.(history := h'), Only(es, src))
    decreases |es|
  {
    hide Scan, Loaded;
    if es == [] {
    } else {
      var st', alone := Step(lib, st, es[0]), st.(history := h');
      if es[0].Packet? && es[0].report.srcIp != src {
        ScanOfAnother(lib, st.rules, st.history, es[0].report, es[0].clock, 0, src);
        ProjectedFrom(lib, st', h', es[1..], src);
        assert Only(es, src) == Only(es[1..], src);
      } else {
        if es[0].Packet? {
          ScanSame(lib, st.rules, st.history, h', es[0].report, es[0].clock, 0);
        }
        ProjectedFrom(lib, st', Step(lib, alone, es[0]).history, es[1..], src);
        assert Only(es, src) == [es[0]] + Only(es[1..], src);
        assert Only(es, src)[1..] == Only(es[1..], src);
      }
    }
  }

  // In any interleaving a source is answered as if its packets were the only traffic.
  lemma SourcesAreIndependent(lib: Library, st: State, es: seq<Event>, src: string)
    ensures RepliesTo(lib, st, es, src) == Replies(lib, st, Only(es, src))
  {
    ProjectedFrom(lib, st, st.history, es, src);
  }

  // ----- Rules that can be removed -----------------------------------------------------------------------

  // Both fields of a threshold, if there is one, are positive.
  predicate Effective(rule: Rule) {
    rule.threshold.Some? ==> rule.threshold.value.packets > 0 && rule.threshold.value.windowSeconds > 0
  }

  function Without(rules: seq<Rule>, k: nat): seq<Rule>
    requires k < |rules|
  {
    rules[..k] + rules[k + 1..]
  }

  // Rule i answers every packet that rule k would see.
  ghost predicate Shadows(lib: Library, first: Rule, second: Rule) {
    first.threshold.None? && forall r :: Matches(lib, second, r) ==> Matches(lib, first, r)
  }

  ghost predicate Redundant(lib: Library, rules: seq<Rule>, k: nat)
    requires k < |rules|
  {
    !Effective(rules[k]) || exists i | 0 <= i < k :: Shadows(lib, rules[i], rules[k])
  }

  lemma ScanPasses(lib: Library, rules: seq<Rule>, h: History, r: PacketReport, clock: Clock, n: nat)
    requires rules != [] && (Ignored(rules[0]) || !Matches(lib, rules[0], r))
    ensures Scan(lib, rules, h, r, clock, n) == Scan(lib, rules[1..], h, r, clock, n)
  {
    hide Matches, Store, Stamps;
  }

  lemma WithoutTail(rules: seq<Rule>, k: nat)
    requires k < |rules|
    ensures k == 0 ==> Without(rules, k) == rules[1..]
    ensures k > 0 ==> Without(rules, k) != [] && Without(rules, k)[0] == rules[0]
                      && Without(rules, k)[1..] == Without(rules[1..], k - 1)
  {
  }

  lemma {:induction false} ScanWithout(lib: Library, rules: seq<Rule>, k: nat, h: History, r: PacketReport,
                                       clock: Clock, n: nat)
    requires k < |rules|
    requires Ignored(rules[k]) || !Matches(lib, rules[k], r)
             || exists i | 0 <= i < k :: rules[i].threshold.None? && Matches(lib, rules[i], r)
    ensures Scan(lib, rules, h, r, clock, n) == Scan(lib, Without(rules, k), h, r, clock, n)
    decreases k
  {
    hide Without, Matches, SlidingWindow.Hit, WindowNs, Store, Stamps, Reads;
    WithoutTail(rules, k);
    if k == 0 {
      ScanPasses(lib, rules, h, r, clock, n);
    } else {
      var o := Try(lib, rules[0], h, r, clock(n));
      if o.answer.None? {
        if i :| 0 <= i < k && rules[i].threshold.None? && Matches(lib, rules[i], r) {
          assert rules[1..][i - 1] == rules[i];
        }
        ScanWithout(lib, rules[1..], k - 1, o.history, r, clock, n + Reads(lib, rules[0], r));
      }
    }
  }

  // A rule with a non-positive threshold field, or behind a stateless rule that matches everything
  // it matches, can be deleted from the file: no packet of any run is answered differently.
  lemma {:induction false} RedundantRuleRemovable(lib: Library, st: State, k: nat, es: seq<Event>)
    requires k < |st.rules| && Redundant(lib, st.rules, k)
    ensures Replies(lib, st, es) == Replies(lib, st.(rules := Without(st.rules, k)), es)
    decreases |es|
  {
    hide Scan, Without, Matches;
    if es == [] {
    } else {
      var other := st.(rules := Without(st.rules, k));
      match es[0] {
        case Packet(r, clock) =>
          if i :| 0 <= i < k && Shadows(lib, st.rules[i], st.rules[k]) {
            assert Matches(lib, st.rules[k], r) ==> Matches(lib, st.rules[i], r);
          }
          ScanWithout(lib, st.rules, k, st.history, r, clock, 0);
          RedundantRuleRemovable(lib, Step(lib, st, es[0]), k, es[1..]);
        case Reload(file) =>
          if Loaded(lib, file).None? {
            RedundantRuleRemovable(lib, st, k, es[1..]);
          }
      }
    }
  }

  // ----- Reloads --------------------------------------------------------------------------------------------

  // A successful reload is a fresh start on the new rules; a failed one might as well not have happened.
  lemma {:induction false} ReloadIsRestart(lib: Library, st: State, before: seq<Event>, file: FileRead,
                                           after: seq<Event>)
    ensures Replies(lib, st, before + [Reload(file)] + after)
         == match Loaded(lib, file)
            case Some(rules) => Replies(lib, st, before) + Replies(lib, State(rules, map[]), after)
            case None => Replies(lib, st, before + after)
    decreases |before|
  {
    hide Loaded, Scan;
    var whole := before + [Reload(file)] + after;
    if before == [] {
      assert whole[1..] == after;
      assert before + after == after;
    } else {
      assert whole[1..] == before[1..] + [Reload(file)] + after;
      assert (before + after)[1..] == before[1..] + after;
      ReloadIsRestart(lib, Step(lib, st, before[0]), before[1..], file, after);
      if Loaded(lib, file).Some? {
        var head := Answer(lib, st, before[0]);
        var mid := Replies(lib, Step(lib, st, before[0]), before[1..]);
        var tail := Replies(lib, State(Loaded(lib, file).value, map[]), after);
        assert head + (mid + tail) == (head + mid) + tail;
      }
    }
  }

  // The run without the reloads that fail.
  function EraseFailed(lib: Library, es: seq<Event>): seq<Event> {
    if es == [] then []
    else (if es[0].Reload? && Loaded(lib, es[0].file).None? then [] else [es[0]]) + EraseFailed(lib, es[1..])
  }

  lemma {:induction false} FailedReloadsErased(lib: Library, st: State, es: seq<Event>)
    ensures Replies(lib, st, es) == Replies(lib, st, EraseFailed(lib, es))
    decreases |es|
  {
    hide Loaded, Scan;
    if es == [] {
    } else {
      var rest := EraseFailed(lib, es[1..]);
      FailedReloadsErased(lib, Step(lib, st, es[0]), es[1..]);
      assert ([es[0]] + rest)[1..] == rest && [] + rest == rest;
    }
  }

  // How many events come before the first reload.
  function UntilReload(es: seq<Event>): (n: nat)
    ensures n <= |es|
    ensures n < |es| ==> es[n].Reload?
  {
    if es == [] || es[0].Reload? then 0 else 1 + UntilReload(es[1..])
  }

  predicate AllLoad(lib: Library, es: seq<Event>) {
    forall i | 0 <= i < |es| && es[i].Reload? :: Loaded(lib, es[i].file).Some?
  }

  // A fresh engine for each reload, which has the packets up to the next one.
  function FreshReplies(lib: Library, st: State, es: seq<Event>): seq<Option<ActionCommand>>
    requires AllLoad(lib, es)
    decreases |es|
  {
    var n := UntilReload(es);
    if n == |es| then Replies(lib, st, es)
    else Replies(lib, st, es[..n]) + FreshReplies(lib, State(Loaded(lib, es[n].file).value, map[]), es[n + 1..])
  }

  lemma {:induction false} FreshEngines(lib: Library, st: State, es: seq<Event>)
    requires AllLoad(lib, es)
    ensures Replies(lib, st, es) == FreshReplies(lib, st, es)
    decreases |es|
  {
    hide Loaded, Replies;
    var n := UntilReload(es);
    if n == |es| {
    } else {
      assert es == es[..n] + [Reload(es[n].file)] + es[n + 1..];
      ReloadIsRestart(lib, st, es[..n], es[n].file, es[n + 1..]);
      FreshEngines(lib, State(Loaded(lib, es[n].file).value, map[]), es[n + 1..]);
    }
  }

  lemma {:induction false} OnlyAcceptedLeft(lib: Library, es: seq<Event>)
    ensures AllLoad(lib, EraseFailed(lib, es))
  {
    hide Loaded;
    if es == [] {
    } else {
      OnlyAcceptedLeft(lib, es[1..]);
    }
  }

  // A whole run, however many reloads it has, answers as a fresh engine for each accepted reload
  // does on the packets up to the next one; the failed reloads might as well not have happened.
  lemma RunIsFreshEngines(lib: Library, st: State, es: seq<Event>)
    ensures AllLoad(lib, EraseFailed(lib, es)) && Replies(lib, st, es) == FreshReplies(lib, st, EraseFailed(lib, es))
  {
    FailedReloadsErased(lib, st, es);
    OnlyAcceptedLeft(lib, es);
    FreshEngines(lib, st, EraseFailed(lib, es));
  }

  // ----- How often a rule triggers in a run -------------------------------------------------------------------

  // When the scan of a packet counts it for `rule`, if it reaches the rule and the packet matches.
  function VisitTime(lib: Library, rules: seq<Rule>, h: History, r: PacketReport, clock: Clock, n: nat,
                     rule: Rule): Option<int>
    decreases |rules|
  {
    if rules == [] then None
    else if rules[0] == rule then (if Matches(lib, rule, r) then Some(clock(n)) else None)
    else
      var o := Try(lib, rules[0], h, r, clock(n));
      if o.answer.Some? then None
      else VisitTime(lib, rules[1..], o.history, r, clock, n + Reads(lib, rules[0], r), rule)
  }

  // The same for one event, and for source src only.
  function HitTime(lib: Library, st: State, e: Event, rule: Rule, src: string): seq<int> {
    if e.Packet? && e.report.srcIp == src then
      var visit := VisitTime(lib, st.rules, st.history, e.report, e.clock, 0, rule);
      if visit.Some? then [visit.value] else []
    else []
  }

  function HitTimes(lib: Library, st: State, es: seq<Event>, rule: Rule, src: string): seq<int>
    decreases |es|
  {
    if es == [] then []
    else HitTime(lib, st, es[0], rule, src) + HitTimes(lib, Step(lib, st, es[0]), es[1..], rule, src)
  }

  // How many packets of src rule answers.
  function AnsweredBy(lib: Library, st: State, es: seq<Event>, rule: Rule, src: string): nat
    decreases |es|
  {
    if es == [] then 0
    else (if es[0].Packet? && es[0].report.srcIp == src
             && Scan(lib, st.rules, st.history, es[0].report, es[0].clock, 0).answer == Some(rule) then 1 else 0)
         + AnsweredBy(lib, Step(lib, st, es[0]), es[1..], rule, src)
  }

  lemma {:induction false} ScanSkips(lib: Library, rules: seq<Rule>, h: History, r: PacketReport, clock: Clock,
                                     n: nat, id: string, src: string)
    requires forall k | 0 <= k < |rules| :: rules[k].id != id
    ensures Stamps(Scan(lib, rules, h, r, clock, n).history, id, src) == Stamps(h, id, src)
    ensures Scan(lib, rules, h, r, clock, n).answer.Some? ==> Scan(lib, rules, h, r, clock, n).answer.value.id != id
    decreases |rules|
  {
    hide Matches, SlidingWindow.Hit, WindowNs, Reads;
    if rules == [] {
    } else {
      var h' := Try(lib, rules[0], h, r, clock(n)).history;
      ScanSkips(lib, rules[1..], h', r, clock, n + Reads(lib, rules[0], r), id, src);
    }
  }

  // One packet moves the list of (rule, its source) by one hit if it gets to the rule, and not at all otherwise.
  lemma {:induction false} ScanAtRule(lib: Library, rules: seq<Rule>, h: History, r: PacketReport,
                                      clock: Clock, n: nat, rule: Rule)
    requires DistinctIds(rules) && rule in rules && rule.threshold.Some? && Effective(rule)
    ensures var o, t := Scan(lib, rules, h, r, clock, n), rule.threshold.value;
            var stamps := Stamps(h, rule.id, r.srcIp);
      match VisitTime(lib, rules, h, r, clock, n, rule)
      case None => Stamps(o.history, rule.id, r.srcIp) == stamps && o.answer != Some(rule)
      case Some(now) =>
        var (stamps', fired) := SlidingWindow.Hit(stamps, now, WindowNs(t), t.packets);
        Stamps(o.history, rule.id, r.srcIp) == stamps' && (o.answer == Some(rule) <==> fired)
    decreases |rules|
  {
    hide Matches, SlidingWindow.Hit, WindowNs, Reads;
    var o, n' := Try(lib, rules[0], h, r, clock(n)), n + Reads(lib, rules[0], r);
    if rules[0] == rule {
      ScanSkips(lib, rules[1..], o.history, r, clock, n', rule.id, r.srcIp);
    } else {
      var k :| 0 <= k < |rules| && rules[k] == rule;
      assert rules[1..][k - 1] == rule;
      assert rules[0].id != rules[k].id;
      ScanAtRule(lib, rules[1..], o.history, r, clock, n', rule);
    }
  }

  // The list of a (rule, source) pair follows the sliding window of its own hits.
  lemma {:induction false} RunAtRule(lib: Library, st: State, es: seq<Event>, rule: Rule, src: string)
    requires DistinctIds(st.rules) && rule in st.rules && rule.threshold.Some? && Effective(rule)
    requires forall i | 0 <= i < |es| :: es[i].Packet?
    ensures var t, times := rule.threshold.value, HitTimes(lib, st, es, rule, src);
            var stamps := Stamps(st.history, rule.id, src);
      && AnsweredBy(lib, st, es, rule, src) == SlidingWindow.Triggers(stamps, times, WindowNs(t), t.packets)
      && Stamps(Run(lib, st, es).history, rule.id, src) == SlidingWindow.After(stamps, times, WindowNs(t), t.packets)
    decreases |es|
  {
    hide Scan, VisitTime, SlidingWindow.Hit, WindowNs, DistinctIds;
    if es == [] {
    } else {
      var r, clock, st' := es[0].report, es[0].clock, Step(lib, st, es[0]);
      RunAtRule(lib, st', es[1..], rule, src);
      if r.srcIp == src {
        ScanAtRule(lib, st.rules, st.history, r, clock, 0, rule);
      } else {
        ScanOfAnother(lib, st.rules, st.history, r, clock, 0, src);
      }
      var hit, rest := HitTime(lib, st, es[0], rule, src), HitTimes(lib, st', es[1..], rule, src);
      assert HitTimes(lib, st, es, rule, src) == hit + rest;
      assert if hit == [] then hit + rest == rest else (hit + rest)[1..] == rest;
    }
  }

  // Every list of a threshold rule holds fewer times than trigger it.
  ghost predicate BelowThresholds(st: State) {
    forall k, src | 0 <= k < |st.rules| && Counts(st.rules[k]) ::
      |Stamps(st.history, st.rules[k].id, src)| < st.rules[k].threshold.value.packets
  }

  lemma PacketKeepsBelow(lib: Library, st: State, r: PacketReport, clock: Clock)
    requires DistinctIds(st.rules) && BelowThresholds(st)
    ensures BelowThresholds(Step(lib, st, Packet(r, clock)))
  {
    hide Scan, SlidingWindow.Hit, WindowNs, Stamps, VisitTime, DistinctIds;
    var h := Scan(lib, st.rules, st.history, r, clock, 0).history;
    forall k, src | 0 <= k < |st.rules| && Counts(st.rules[k])
      ensures |Stamps(h, st.rules[k].id, src)| < st.rules[k].threshold.value.packets
    {
      var rule, t := st.rules[k], st.rules[k].threshold.value;
      if src == r.srcIp {
        ScanAtRule(lib, st.rules, st.history, r, clock, 0, rule);
        var visit := VisitTime(lib, st.rules, st.history, r, clock, 0, rule);
        if visit.Some? {
          SlidingWindow.HitCount(Stamps(st.history, rule.id, src), visit.value, WindowNs(t), t.packets);
        }
      } else {
        ScanOfAnother(lib, st.rules, st.history, r, clock, 0, src);
      }
    }
  }

  lemma {:induction false} RunKeepsBelow(lib: Library, st: State, es: seq<Event>)
    requires DistinctIds(st.rules) && BelowThresholds(st) && LoadsDistinct(lib, es)
    ensures var st' := Run(lib, st, es); DistinctIds(st'.rules) && BelowThresholds(st')
    decreases |es|
  {
    if es == [] {
    } else {
      match es[0] {
        case Packet(r, clock) =>
          hide DistinctIds, BelowThresholds, Scan;
          PacketKeepsBelow(lib, st, r, clock);
          RunKeepsBelow(lib, Step(lib, st, es[0]), es[1..]);
        case Reload(file) =>
          hide DistinctIds, Loaded;
          RunKeepsBelow(lib, Step(lib, st, es[0]), es[1..]);
      }
    }
  }

  // After any run of packets and reloads in which every accepted file has distinct IDs, the next
  // packets of one source that reach and match a threshold rule within less than its window
  // trigger it between floor(n/P) and floor((n+P-1)/P) times, whatever else is on the wire.
  lemma RuleTriggerBounds(lib: Library, rules: seq<Rule>, past: seq<Event>, es: seq<Event>, rule: Rule, src: string)
    requires DistinctIds(rules) && LoadsDistinct(lib, past)
    requires rule in Run(lib, State(rules, map[]), past).rules && rule.threshold.Some? && Effective(rule)
    requires forall i | 0 <= i < |es| :: es[i].Packet?
    requires var times := HitTimes(lib, Run(lib, State(rules, map[]), past), es, rule, src);
      times != [] && forall i | 0 <= i < |times| :: times[0] <= times[i] < times[0] + WindowNs(rule.threshold.value)
    ensures var st, p := Run(lib, State(rules, map[]), past), rule.threshold.value.packets;
            var n := |HitTimes(lib, st, es, rule, src)|;
      && n / p <= AnsweredBy(lib, st, es, rule, src) <= (n + p - 1) / p
      && |Stamps(Run(lib, st, es).history, rule.id, src)| < p
  {
    hide Scan, VisitTime, HitTimes, AnsweredBy, DistinctIds, LoadsDistinct, WindowNs;
    hide SlidingWindow.After, SlidingWindow.Triggers;
    var st, t := Run(lib, State(rules, map[]), past), rule.threshold.value;
    hide Run;
    RunKeepsBelow(lib, State(rules, map[]), past);
    RunAtRule(lib, st, es, rule, src);
    var times := HitTimes(lib, st, es, rule, src);
    SlidingWindow.ConsumedAtMost(Stamps(st.history, rule.id, src), times, WindowNs(t), t.packets);
    SlidingWindow.TriggerBounds(Stamps(st.history, rule.id, src), times, WindowNs(t), t.packets);
  }
}
