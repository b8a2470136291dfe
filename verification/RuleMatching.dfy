/** What a rule of the file means for a packet, and what the answer to the packet says: criterion by
    criterion, and field by field. */
module RuleMatching {
  import opened Wrappers
  import opened Proto
  import opened RuleEngine
  import opened RuleEngineRuns
  import PortSpec
  import SlidingWindow
  import Strings

  // ----- The command of an answer -----------------------------------------------------------------------

  // cmd carries out rule for the sender of r. Any action text but the two named ones blocks.
  predicate CarriesOut(lib: Library, rule: Rule, r: PacketReport, cmd: ActionCommand) {
    var upper := lib.toUpper(rule.action);
    && (cmd.action == RATE_LIMIT <==> upper == "RATE_LIMIT")
    && (cmd.action == ALLOW <==> upper == "ALLOW")
    && (cmd.action == BLOCK <==> upper != "RATE_LIMIT" && upper != "ALLOW")
    && cmd.targetIp == r.srcIp && cmd.durationSeconds == rule.duration && cmd.rateLimitPps == rule.rateLimitPPS
    && match rule.threshold
       case None => cmd.reason == rule.reason
       case Some(t) =>
         && t.packets > 0 && t.windowSeconds > 0
         && cmd.reason == rule.reason + " (Triggered by threshold: " + Strings.PrintNat(t.packets) + " packets in "
                          + Strings.PrintNat(t.windowSeconds) + "s)"
  }

  // Every reply carries out a rule of the list that the packet matches, ahead of every stateless rule
  // that it matches; and a packet without a reply matches no stateless rule.
  lemma ReplyIsExact(lib: Library, rules: seq<Rule>, h: History, r: PacketReport, clock: Clock)
    ensures match Reply(lib, Scan(lib, rules, h, r, clock, 0), r)
      case Some(cmd) =>
        exists k | 0 <= k < |rules| :: Matches(lib, rules[k], r) && CarriesOut(lib, rules[k], r, cmd)
          && forall j | 0 <= j < k && rules[j].threshold.None? :: !Matches(lib, rules[j], r)
      case None => forall j | 0 <= j < |rules| && rules[j].threshold.None? :: !Matches(lib, rules[j], r)
  {
    AnswerIsFirstMatch(lib, rules, h, r, clock, 0);
    hide Matches, Scan;
    var o := Scan(lib, rules, h, r, clock, 0);
    if o.answer.Some? {
      var k :| 0 <= k < |rules| && rules[k] == o.answer.value && Matches(lib, rules[k], r) && Effective(rules[k])
               && forall j | 0 <= j < k && rules[j].threshold.None? :: !Matches(lib, rules[j], r);
      assert CarriesOut(lib, rules[k], r, CommandFor(lib, rules[k], r));
    }
  }

  // ----- The criteria of a rule ---------------------------------------------------------------------------

  datatype Criterion = Protocol | SrcIp | DstIp | SrcPort | DstPort | Hex | Text | Regex

  // The rule with one of its criteria, and the others left blank.
  function Only(rule: Rule, c: Criterion): Rule {
    var blank := rule.(protocol := "", srcIP := "", dstIP := "", srcPort := 0, dstPort := 0, srcPortRange := "",
                       dstPortRange := "", payloadHex := "", payloadString := "", compiledRegex := None);
    match c
    case Protocol => blank.(protocol := rule.protocol)
    case SrcIp => blank.(srcIP := rule.srcIP)
    case DstIp => blank.(dstIP := rule.dstIP)
    case SrcPort => blank.(srcPort := rule.srcPort, srcPortRange := rule.srcPortRange)
    case DstPort => blank.(dstPort := rule.dstPort, dstPortRange := rule.dstPortRange)
    case Hex => blank.(payloadHex := rule.payloadHex)
    case Text => blank.(payloadString := rule.payloadString)
    case Regex => blank.(compiledRegex := rule.compiledRegex)
  }

  // A rule matches exactly when each of its criteria alone does.
  lemma CriteriaConjoin(lib: Library, rule: Rule, r: PacketReport)
    ensures Matches(lib, rule, r) <==> forall c :: Matches(lib, Only(rule, c), r)
  {
    hide MatchIP, Contains, PortSpec.Accepts;
    BlankAccepts(lib, r);
    if forall c :: Matches(lib, Only(rule, c), r) {
      assert Matches(lib, Only(rule, Protocol), r) && Matches(lib, Only(rule, SrcIp), r);
      assert Matches(lib, Only(rule, DstIp), r) && Matches(lib, Only(rule, SrcPort), r);
      assert Matches(lib, Only(rule, DstPort), r) && Matches(lib, Only(rule, Hex), r);
      assert Matches(lib, Only(rule, Text), r) && Matches(lib, Only(rule, Regex), r);
    }
  }

  lemma BlankAccepts(lib: Library, r: PacketReport)
    ensures MatchIP(lib, "", r.srcIp) && MatchIP(lib, "", r.dstIp)
    ensures PortSpec.Accepts(0, "", r.srcPort) && PortSpec.Accepts(0, "", r.dstPort)
  {
  }

  // The bytes occur somewhere in the payload.
  ghost predicate Occurs(needle: seq<byte>, hay: seq<byte>) {
    exists before: seq<byte>, after: seq<byte> :: hay == before + needle + after
  }

  lemma OccursIff(needle: seq<byte>, hay: seq<byte>)
    ensures Contains(hay, needle) <==> Occurs(needle, hay)
  {
    if Contains(hay, needle) {
      var i :| 0 <= i <= |hay| && needle <= hay[i..];
      assert hay == hay[..i] + needle + hay[i + |needle|..];
    }
    if Occurs(needle, hay) {
      var before: seq<byte>, after: seq<byte> :| hay == before + needle + after;
      assert hay[|before|..] == needle + after;
      assert needle <= hay[|before|..];
    }
  }

  // A network, when the text has a slash and parses as one; else two addresses, when both parse; else
  // plain text. A packet without an address meets only a blank.
  ghost predicate AddressMeets(lib: Library, text: string, address: string) {
    text == ""
    || (address != ""
        && var network := if '/' in text then lib.cidrContains(text, address) else None;
           match network
           case Some(inside) => inside
           case None =>
             match lib.sameIP(text, address)
             case Some(same) => same
             case None => text == address)
  }

  // What each criterion asks of which field of the report.
  lemma CriterionMeans(lib: Library, rule: Rule, c: Criterion, r: PacketReport)
    ensures Matches(lib, Only(rule, c), r) <==>
      match c
      case Protocol => rule.protocol == "" || lib.equalFold(r.protocol, rule.protocol)
      case SrcIp => AddressMeets(lib, rule.srcIP, r.srcIp)
      case DstIp => AddressMeets(lib, rule.dstIP, r.dstIp)
      case SrcPort => PortSpec.Accepts(rule.srcPort, rule.srcPortRange, r.srcPort)
      case DstPort => PortSpec.Accepts(rule.dstPort, rule.dstPortRange, r.dstPort)
      case Hex =>
        rule.payloadHex == ""
        || (lib.decodeHex(rule.payloadHex).Some? && Occurs(lib.decodeHex(rule.payloadHex).value, r.payloadPeek))
      case Text => rule.payloadString == "" || Occurs(lib.utf8(rule.payloadString), r.payloadPeek)
      case Regex => rule.compiledRegex.Some? ==> lib.regexMatches(rule.compiledRegex.value, r.payloadPeek)
  {
    hide PortSpec.Accepts, Contains, Occurs;
    BlankAccepts(lib, r);
    if lib.decodeHex(rule.payloadHex).Some? {
      OccursIff(lib.decodeHex(rule.payloadHex).value, r.payloadPeek);
    }
    OccursIff(lib.utf8(rule.payloadString), r.payloadPeek);
  }

  // ----- What a file installs -----------------------------------------------------------------------------

  // A file is taken exactly when it parses and every pattern in it compiles. Its rules are installed
  // as they stand, and those with a pattern are then matched by that pattern.
  lemma LoadedExactly(lib: Library, file: FileRead)
    ensures Loaded(lib, file).Some?
            <==> file.Parsed? && forall i | 0 <= i < |file.rules| ::
                   file.rules[i].payloadRegex == "" || lib.regexCompiles(file.rules[i].payloadRegex)
    ensures Loaded(lib, file).Some? ==> var rules := Loaded(lib, file).value;
      && |rules| == |file.rules|
      && forall i | 0 <= i < |rules| ::
           && rules[i].(compiledRegex := None) == file.rules[i].(compiledRegex := None)
           && rules[i].compiledRegex
              == if file.rules[i].payloadRegex != "" then Some(file.rules[i].payloadRegex)
                 else file.rules[i].compiledRegex
  {
    if file.Parsed? {
      assert forall i | 0 <= i < |file.rules| :: file.rules[i] in file.rules;
    }
  }

  // So a packet that an installed rule matches has a payload that the rule's pattern matches.
  lemma PatternApplies(lib: Library, file: FileRead, i: nat, r: PacketReport)
    requires Loaded(lib, file).Some? && i < |file.rules| && i < |Loaded(lib, file).value|
    requires file.rules[i].payloadRegex != "" && Matches(lib, Loaded(lib, file).value[i], r)
    ensures lib.regexCompiles(file.rules[i].payloadRegex) && lib.regexMatches(file.rules[i].payloadRegex, r.payloadPeek)
  {
    LoadedExactly(lib, file);
  }

  // ----- The window ---------------------------------------------------------------------------------------

  // The product of seconds and 10^9 as a signed 64-bit number, for every number of seconds.
  lemma WindowWraps(t: Threshold)
    ensures -0x8000_0000_0000_0000 < WindowNs(t) <= 0x8000_0000_0000_0000
    ensures (WindowNs(t) - t.windowSeconds * 1_000_000_000) % 0x1_0000_0000_0000_0000 == 0
  {
  }

  // ----- The clock ----------------------------------------------------------------------------------------

  // How many of the first k rules count the packet.
  function CountingBefore(lib: Library, rules: seq<Rule>, r: PacketReport, k: nat): nat
    requires k <= |rules|
    decreases k
  {
    if k == 0 then 0
    else
      (if Matches(lib, rules[0], r) && rules[0].threshold.Some? && Effective(rules[0]) then 1 else 0)
      + CountingBefore(lib, rules[1..], r, k - 1)
  }

  // A rule counts the packet at a reading of its own, the one after those of the counting rules ahead of it.
  lemma {:induction false} ReadsAnew(lib: Library, rules: seq<Rule>, h: History, r: PacketReport,
                                     clock: Clock, n: nat, rule: Rule) returns (k: nat)
    requires VisitTime(lib, rules, h, r, clock, n, rule).Some?
    ensures k < |rules| && rules[k] == rule
    ensures VisitTime(lib, rules, h, r, clock, n, rule) == Some(clock(n + CountingBefore(lib, rules, r, k)))
    decreases |rules|
  {
    hide Matches, SlidingWindow.Hit, WindowNs, Stamps, Store;
    if rules[0] == rule {
      k := 0;
    } else {
      var o := Try(lib, rules[0], h, r, clock(n));
      var n' := n + Reads(lib, rules[0], r);
      k := ReadsAnew(lib, rules[1..], o.history, r, clock, n', rule);
      assert CountingBefore(lib, rules, r, k + 1) == Reads(lib, rules[0], r) + CountingBefore(lib, rules[1..], r, k);
      k := k + 1;
    }
  }
}
