/** Risk rules over flow features, fusion with the model's label, and the resulting decision. */
module Decision {
  import opened Wrappers
  import opened Features

  datatype RiskRule = RiskRule(name: string, riskDelta: int, fires: FlowFeatures -> bool)

  predicate HighBytes(f: FlowFeatures) { f.flowBytesPerSecond > 1_000_000.0 }
  predicate HighPackets(f: FlowFeatures) { f.flowPacketsPerSecond > 1_000.0 }
  predicate ManyForward(f: FlowFeatures) { f.totalFwdPackets > 500.0 }
  predicate LargePackets(f: FlowFeatures) { f.averagePacketSize > 1_400.0 }

  function DefaultRules(): seq<RiskRule> {
    [RiskRule("HighFlowBytesPerSecond", 20, HighBytes),
     RiskRule("HighFlowPacketsPerSecond", 20, HighPackets),
     RiskRule("HighTotalFwdPackets", 15, ManyForward),
     RiskRule("LargeAveragePacketSize", 10, LargePackets)]
  }

  function Total(rules: seq<RiskRule>, f: FlowFeatures): int {
    if rules == [] then 0 else (if rules[0].fires(f) then rules[0].riskDelta else 0) + Total(rules[1..], f)
  }

  method Score(rules: seq<RiskRule>, f: FlowFeatures) returns (total: int)
    ensures total == Total(rules, f)
  {
    total := 0;
    for i := 0 to |rules|
      invariant total + Total(rules[i..], f) == Total(rules, f)
    {
      assert rules[i..][0] == rules[i] && rules[i..][1..] == rules[i + 1..];
      if rules[i].fires(f) {
        total := total + rules[i].riskDelta;
      }
    }
  }

  lemma DefaultTotal(f: FlowFeatures)
    ensures Total(DefaultRules(), f)
         == (if HighBytes(f) then 20 else 0) + (if HighPackets(f) then 20 else 0)
            + (if ManyForward(f) then 15 else 0) + (if LargePackets(f) then 10 else 0)
  {
    var rules := DefaultRules();
    assert rules[1..][1..] == rules[2..] && rules[2..][1..] == rules[3..] && rules[3..][1..] == [];
    assert Total(rules[3..], f) == (if LargePackets(f) then 10 else 0) + Total([], f);
    assert Total(rules[2..], f) == (if ManyForward(f) then 15 else 0) + Total(rules[3..], f);
    assert Total(rules[1..], f) == (if HighPackets(f) then 20 else 0) + Total(rules[2..], f);
  }

  datatype Verdict = Allow | RateLimit | Block

  function Classify(risk: int): Verdict {
    if risk >= 60 then Block else if risk >= 30 then RateLimit else Allow
  }

  datatype Evaluation = Evaluation(verdict: Verdict, totalRisk: int, failed: bool)

  // aiLabel is what the model answered for these features; None when inference failed.
  function EvaluateFlow(aiLabel: Option<int>, f: FlowFeatures): Evaluation {
    var aiRisk := if aiLabel.Some? then MapLabelToRisk(aiLabel.value) else 0;
    var totalRisk := aiRisk + Total(DefaultRules(), f);
    Evaluation(Classify(totalRisk), totalRisk, aiLabel.None?)
  }

  // The whole evaluation in numbers: what each rule and the label add, and where the verdict changes.
  lemma EvaluateExact(aiLabel: Option<int>, f: FlowFeatures)
    ensures var e := EvaluateFlow(aiLabel, f);
      && e.failed == aiLabel.None?
      && e.totalRisk == (if aiLabel.Some? && aiLabel.value != 1 then 50 else 0)
                        + (if f.flowBytesPerSecond > 1_000_000.0 then 20 else 0)
                        + (if f.flowPacketsPerSecond > 1_000.0 then 20 else 0)
                        + (if f.totalFwdPackets > 500.0 then 15 else 0)
                        + (if f.averagePacketSize > 1_400.0 then 10 else 0)
      && (e.verdict == Block <==> e.totalRisk >= 60)
      && (e.verdict == RateLimit <==> 30 <= e.totalRisk < 60)
      && (e.verdict == Allow <==> e.totalRisk < 30)
  {
    DefaultTotal(f);
    hide Total;
  }
}
