/** The manager's two evaluation paths, from a packet report to the commands sent to the agent. */
module Server {
  import opened Wrappers
  import opened Proto
  import opened Features
  import opened Decision
  import Aggregator
  import AggregatorRuns
  import KernelList
  import Responder
  import ResponderOrder
  import RuleEngine
  import Strings

  // The model: a label for each feature vector, or None where inference fails or was never set up.
  type Predictor = FlowFeatures -> Option<int>

  function PrintInt(n: int): string {
    if n < 0 then "-" + Strings.PrintNat(-n) else Strings.PrintNat(n)
  }

  function DecisionToCommand(v: Verdict, srcIP: string, totalRisk: int): Option<ActionCommand> {
    var score := "AI+Rule risk score " + PrintInt(totalRisk) + "/100 \U{2014} ";
    match v
    case Block => Some(ActionCommand(BLOCK, srcIP, score + "anomalous flow detected", 300, 0))
    case RateLimit => Some(ActionCommand(RATE_LIMIT, srcIP, score + "suspicious flow rate-limited", 60, 100))
    case Allow => None
  }

  // evaluateAndRespond: a failed inference sends nothing, whatever the rules said.
  function Respond(aiLabel: Option<int>, result: Aggregator.FlowResult): Option<ActionCommand> {
    var e := EvaluateFlow(aiLabel, result.features);
    if e.failed then None else DecisionToCommand(e.verdict, result.srcIP, e.totalRisk)
  }

  function Sent(reply: Option<ActionCommand>): seq<ActionCommand> {
    if reply.Some? then [reply.value] else []
  }

  /** The service shared by all agent streams. */
  class Monitor {
    const ruleEngine: RuleEngine.Engine
    const agg: Aggregator.FlowAggregator

    constructor ()
      ensures fresh(ruleEngine) && fresh(agg)
      ensures ruleEngine.rules == [] && ruleEngine.history == map[]
      ensures agg.Contents() == Aggregator.State(map[], [], [])
    {
      ruleEngine := new RuleEngine.Engine();
      agg := new Aggregator.FlowAggregator();
    }

    // One pass of the receive loop: first the signature rules, then the flow path.
    method Receive(lib: RuleEngine.Library, predict: Predictor, report: PacketReport,
                   ruleClock: RuleEngine.Clock, flowTime: int)
      returns (commands: seq<ActionCommand>)
      modifies ruleEngine, agg
      ensures var o := RuleEngine.Scan(lib, ruleEngine.rules, old(ruleEngine.history), report, ruleClock, 0);
              var (st, result) := Aggregator.Ingest(old(agg.Contents()), report, flowTime);
        && ruleEngine.rules == old(ruleEngine.rules) && ruleEngine.history == o.history
        && agg.Contents() == st
        && commands == Sent(RuleEngine.Reply(lib, o, report))
                       + (if result.Some? then Sent(Respond(predict(result.value.features), result.value)) else [])
    {
      commands := [];
      var reply := ruleEngine.Evaluate(lib, report, ruleClock);
      if reply.Some? {
        commands := commands + [reply.value];
      }
      var result := agg.IngestReport(report, flowTime);
      if result.Some? {
        var flowReply := Respond(predict(result.value.features), result.value);
        if flowReply.Some? {
          commands := commands + [flowReply.value];
        }
      }
    }

    // One pass of the draining goroutine.
    method Drain(predict: Predictor) returns (commands: seq<ActionCommand>)
      requires agg.results != []
      modifies agg
      ensures var (st, result) := Aggregator.Receive(old(agg.Contents()));
        agg.Contents() == st && commands == Sent(Respond(predict(result.features), result))
    {
      var result := agg.ReceiveNext();
      var reply := Respond(predict(result.features), result);
      commands := Sent(reply);
    }
  }

  // ----- Exactly when the flow path acts ------------------------------------------------------------

  lemma RateIsSizeTimesPackets(bytes: real, packets: real, seconds: real)
    requires packets > 0.0 && seconds > 0.0
    ensures bytes / seconds == (bytes / packets) * (packets / seconds)
  {
  }

  lemma ProductExceeds(size: real, rate: real)
    requires size > 1_400.0 && rate > 1_000.0
    ensures size * rate > 1_000_000.0
  {
  }

  // Of the four rules, the forward-packet one never fires on an exported flow, and large packets
  // at a high packet rate always mean a high byte rate.
  lemma ExportedFeatures(key: Aggregator.FlowKey, s: Aggregator.FlowState)
    requires 1 <= s.totalPackets <= 200 && s.fwdPackets == s.totalPackets
    ensures var f := Aggregator.ToFeatures(s);
      && f.totalFwdPackets <= 200.0
      && (f.flowPacketsPerSecond > 1_000.0 && f.averagePacketSize > 1_400.0 ==> f.flowBytesPerSecond > 1_000_000.0)
  {
    var f := Aggregator.ToFeatures(s);
    var elapsed := s.lastSeen - s.firstSeen;
    var seconds := if elapsed <= 0 then 0.001 else elapsed as real / 1_000_000_000.0;
    RateIsSizeTimesPackets(s.totalBytes as real, s.totalPackets as real, seconds);
    if f.flowPacketsPerSecond > 1_000.0 && f.averagePacketSize > 1_400.0 {
      ProductExceeds(f.averagePacketSize, f.flowPacketsPerSecond);
    }
  }

  // Over every result the aggregator can produce in any run, and every label: BLOCK exactly for an
  // anomalous flow on which a byte-rate, packet-rate or packet-size rule fires; RATE_LIMIT exactly
  // for an anomalous flow on which none does, or a normal one with a high byte rate and one more.
  lemma FlowPathExact(actions: seq<AggregatorRuns.Action>, result: Aggregator.FlowResult, aiLabel: Option<int>)
    requires AggregatorRuns.Schedule(AggregatorRuns.START, actions)
    requires AggregatorRuns.Produced(AggregatorRuns.Run(AggregatorRuns.START, actions), result)
    ensures var f, reply := result.features, Respond(aiLabel, result);
            var anomalous := aiLabel.Some? && aiLabel.value != 1;
            var normal := aiLabel.Some? && aiLabel.value == 1;
            var bytes, packets := f.flowBytesPerSecond > 1_000_000.0, f.flowPacketsPerSecond > 1_000.0;
            var size := f.averagePacketSize > 1_400.0;
            var total := (if anomalous then 50 else 0) + (if bytes then 20 else 0) + (if packets then 20 else 0)
                         + (if size then 10 else 0);
            var score := "AI+Rule risk score " + Strings.PrintNat(total) + "/100 \U{2014} ";
      && (reply.Some? && reply.value.action == BLOCK <==> anomalous && (bytes || packets || size))
      && (reply.Some? && reply.value.action == RATE_LIMIT
          <==> (anomalous && !bytes && !packets && !size) || (normal && bytes && (packets || size)))
      && (reply.Some? ==>
            reply.value == if reply.value.action == BLOCK then
                             ActionCommand(BLOCK, result.key.srcIP, score + "anomalous flow detected", 300, 0)
                           else
                             ActionCommand(RATE_LIMIT, result.key.srcIP,
                                           score + "suspicious flow rate-limited", 60, 100))
  {
    hide AggregatorRuns.Produced, AggregatorRuns.Run, AggregatorRuns.Schedule, Aggregator.ToFeatures;
    hide AggregatorRuns.Seconds, EvaluateFlow;
    var key, arrivals := AggregatorRuns.ResultsAreSegments(actions, result);
    ExportedFeatures(key, AggregatorRuns.StateOf(arrivals));
    EvaluateExact(aiLabel, result.features);
  }

  // ----- The same from the reports themselves --------------------------------------------------------

  lemma RateExceeds(rate: real, seconds: real, total: real, bound: real)
    requires seconds > 0.0 && rate * seconds == total
    ensures rate > bound <==> total > bound * seconds
  {
    assert rate * seconds - bound * seconds == (rate - bound) * seconds;
  }

  // What the three rules mean for n reports of so many bytes within so many nanoseconds. All of them
  // are comparisons of whole numbers.
  lemma RulesOnCounters(f: FlowFeatures, n: nat, bytes: nat, elapsed: int)
    requires n > 0
    requires f.averagePacketSize * n as real == bytes as real
    requires f.flowPacketsPerSecond * AggregatorRuns.Seconds(elapsed) == n as real
    requires f.flowBytesPerSecond * AggregatorRuns.Seconds(elapsed) == bytes as real
    ensures f.flowBytesPerSecond > 1_000_000.0 <==> if elapsed <= 0 then bytes > 1_000 else 1_000 * bytes > elapsed
    ensures f.flowPacketsPerSecond > 1_000.0 <==> if elapsed <= 0 then n > 1 else 1_000_000 * n > elapsed
    ensures f.averagePacketSize > 1_400.0 <==> bytes > 1_400 * n
  {
    var seconds := AggregatorRuns.Seconds(elapsed);
    RateExceeds(f.flowBytesPerSecond, seconds, bytes as real, 1_000_000.0);
    RateExceeds(f.flowPacketsPerSecond, seconds, n as real, 1_000.0);
    RateExceeds(f.averagePacketSize, n as real, bytes as real, 1_400.0);
  }

  // Over every run: the command sent for a flow, from the reports it was made of. An anomalous flow
  // is blocked when it carried more than a megabyte, or a thousand packets, a second, or more than
  // 1400 bytes a packet, and limited otherwise; a normal one is limited for the first with another.
  lemma FlowPathOnReports(actions: seq<AggregatorRuns.Action>, result: Aggregator.FlowResult, aiLabel: Option<int>)
    returns (arrivals: seq<AggregatorRuns.Arrival>)
    requires AggregatorRuns.Schedule(AggregatorRuns.START, actions)
    requires AggregatorRuns.Produced(AggregatorRuns.Run(AggregatorRuns.START, actions), result)
    ensures 3 <= |arrivals| <= 200
    ensures forall i | 0 <= i < |arrivals| :: var r := arrivals[i].report;
      && r.srcIp == result.key.srcIP && r.dstIp == result.key.dstIP
      && r.dstPort == result.key.dstPort && r.protocol == result.key.protocol
    ensures var n, total := |arrivals|, AggregatorRuns.Bytes(arrivals);
            var elapsed := arrivals[n - 1].now - arrivals[0].now;
            var bytes := if elapsed <= 0 then total > 1_000 else 1_000 * total > elapsed;
            var packets := if elapsed <= 0 then n > 1 else 1_000_000 * n > elapsed;
            var size := total > 1_400 * n;
            var reply, target := Respond(aiLabel, result), result.key.srcIP;
      match aiLabel
      case None => reply == None
      case Some(answer) =>
        if answer != 1 then
          && reply.Some? && reply.value.targetIp == target
          && (if bytes || packets || size then reply.value.action == BLOCK && reply.value.durationSeconds == 300
              else
                && reply.value.action == RATE_LIMIT
                && reply.value.durationSeconds == 60 && reply.value.rateLimitPps == 100)
        else if bytes && (packets || size) then
          && reply.Some? && reply.value.targetIp == target
          && reply.value.action == RATE_LIMIT && reply.value.durationSeconds == 60 && reply.value.rateLimitPps == 100
        else reply == None
  {
    hide AggregatorRuns.Produced, AggregatorRuns.Run, AggregatorRuns.Schedule, Aggregator.ToFeatures;
    hide AggregatorRuns.Seconds, AggregatorRuns.StateOf, Respond;
    var key;
    key, arrivals := AggregatorRuns.ResultsAreSegments(actions, result);
    var elapsed := arrivals[|arrivals| - 1].now - arrivals[0].now;
    RulesOnCounters(result.features, |arrivals|, AggregatorRuns.Bytes(arrivals), elapsed);
    FlowPathExact(actions, result, aiLabel);
    NoLabelNoReply(aiLabel, result);
  }

  lemma NoLabelNoReply(aiLabel: Option<int>, result: Aggregator.FlowResult)
    ensures aiLabel.None? ==> Respond(aiLabel, result) == None
    ensures var reply := Respond(aiLabel, result); reply.Some? ==> reply.value.action != ALLOW
  {
  }

  // EvaluateFlow still scores the rules when inference fails, but the server then sends nothing:
  // exactly the flows a normal label would have rate-limited on rules alone go unanswered.
  lemma FailedInferenceSilencesRules(actions: seq<AggregatorRuns.Action>, result: Aggregator.FlowResult)
    requires AggregatorRuns.Schedule(AggregatorRuns.START, actions)
    requires AggregatorRuns.Produced(AggregatorRuns.Run(AggregatorRuns.START, actions), result)
    ensures Respond(None, result) == None
    ensures var f := result.features; var verdict := EvaluateFlow(None, f).verdict;
      && verdict != Block
      && (verdict == RateLimit
          <==> f.flowBytesPerSecond > 1_000_000.0
               && (f.flowPacketsPerSecond > 1_000.0 || f.averagePacketSize > 1_400.0))
  {
    hide AggregatorRuns.Produced, AggregatorRuns.Run, AggregatorRuns.Schedule, Aggregator.ToFeatures;
    hide AggregatorRuns.Seconds;
    var key, arrivals := AggregatorRuns.ResultsAreSegments(actions, result);
    ExportedFeatures(key, AggregatorRuns.StateOf(arrivals));
    EvaluateExact(None, result.features);
    hide EvaluateFlow;
    NoLabelNoReply(None, result);
  }

  // The rule reply goes out first, then the flow reply; both act on the sender, and on nobody else.
  lemma CommandsTargetTheSender(lib: RuleEngine.Library, rules: seq<RuleEngine.Rule>, history: RuleEngine.History,
                                st: Aggregator.State, report: PacketReport, ruleClock: RuleEngine.Clock,
                                flowTime: int, aiLabel: Option<int>)
    ensures var o := RuleEngine.Scan(lib, rules, history, report, ruleClock, 0);
            var result := Aggregator.Ingest(st, report, flowTime).1;
            var first := RuleEngine.Reply(lib, o, report);
            var second := if result.Some? then Respond(aiLabel, result.value) else None;
            var commands := Sent(first) + (if result.Some? then Sent(Respond(aiLabel, result.value)) else []);
      && |commands| == (if first.Some? then 1 else 0) + (if second.Some? then 1 else 0)
      && (first.Some? ==> commands[0] == first.value)
      && (second.Some? ==> commands[|commands| - 1] == second.value)
      && forall i | 0 <= i < |commands| :: commands[i].targetIp == report.srcIp
  {
    hide RuleEngine.Scan, EvaluateFlow, PrintInt, Aggregator.ToFeatures, RuleEngine.ActionOf;
  }

  // ----- From the manager to the agent's firewall -----------------------------------------------------

  // A command the flow path can send.
  ghost predicate FromFlowPath(cmd: ActionCommand) {
    exists aiLabel, result :: Respond(aiLabel, result) == Some(cmd)
  }

  lemma FlowCommandsAreTimed(steps: seq<Responder.Step>)
    requires forall i | 0 <= i < |steps| && steps[i].Command? :: FromFlowPath(steps[i].cmd)
    ensures forall i | 0 <= i < |steps| :: ResponderOrder.Timed(steps[i])
  {
  }

  // An agent that only ever carries out flow-path commands, in any interleaving with its cleanup
  // tasks, ends with the chain it started from; and with an empty kernel list, so with the whole
  // firewall it started from, unless a cleanup leaks an entry.
  lemma FlowCommandsLeaveNoTrace(initial: seq<Responder.FwRule>, steps: seq<Responder.Step>)
    requires ResponderOrder.NoAgentRules(initial) && Responder.Schedule(Responder.Start(initial), steps)
    requires forall i | 0 <= i < |steps| && steps[i].Command? :: FromFlowPath(steps[i].cmd)
    requires ResponderOrder.Quiescent(Responder.Run(Responder.Start(initial), steps))
    ensures var h := Responder.Run(Responder.Start(initial), steps);
      && h.chain == initial
      && (KernelList.NeverLeaks(Responder.Start(initial), steps) || KernelList.CleansSucceed(steps)
          ==> h == Responder.Start(initial))
  {
    hide Responder.Schedule, Responder.Run, FromFlowPath, ResponderOrder.NoAgentRules;
    hide KernelList.NeverLeaks, KernelList.CleansSucceed;
    FlowCommandsAreTimed(steps);
    ResponderOrder.TimedCommandsLeaveNothing(Responder.Start(initial), steps);
    ResponderOrder.RestoredExactly(initial, steps);
    if KernelList.CleansSucceed(steps) {
      KernelList.SuccessNeverLeaks(Responder.Start(initial), steps);
    }
    if KernelList.NeverLeaks(Responder.Start(initial), steps) {
      KernelList.XdpRestored(initial, steps);
    }
  }
}
