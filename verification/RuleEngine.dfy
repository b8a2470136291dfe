/** The signature and threshold rule engine: first match wins, thresholds keep a pruned list of
    times per rule and source. */
module RuleEngine {
  import opened Wrappers
  import opened Proto
  import PortSpec
  import Strings
  import SlidingWindow

  datatype Threshold = Threshold(packets: int, windowSeconds: int)

  datatype Rule = Rule(
    id: string, name: string, protocol: string, srcIP: string, dstIP: string,
    srcPort: int, dstPort: int, srcPortRange: string, dstPortRange: string,
    payloadHex: string, payloadString: string, payloadRegex: string, compiledRegex: Option<string>,
    action: string, duration: u32, rateLimitPPS: u32, reason: string, threshold: Option<Threshold>)

  /** Go library calls whose code is not part of this model, as arbitrary total functions. */
  datatype Library = Library(
    equalFold: (string, string) -> bool,                // strings.EqualFold
    toUpper: string -> string,                          // strings.ToUpper
    utf8: string -> seq<byte>,                          // []byte(s)
    decodeHex: string -> Option<seq<byte>>,             // hex.DecodeString
    cidrContains: (string, string) -> Option<bool>,     // None: ParseCIDR fails
    sameIP: (string, string) -> Option<bool>,           // None: one of the two does not parse
    regexCompiles: string -> bool,
    regexMatches: (string, seq<byte>) -> bool)

  predicate MatchIP(lib: Library, ruleIP: string, packetIP: string) {
    if ruleIP == "" then true
    else if packetIP == "" then false
    else if '/' in ruleIP && lib.cidrContains(ruleIP, packetIP).Some? then lib.cidrContains(ruleIP, packetIP).value
    else if lib.sameIP(ruleIP, packetIP).Some? then lib.sameIP(ruleIP, packetIP).value
    else ruleIP == packetIP
  }

  predicate Contains(hay: seq<byte>, needle: seq<byte>) {
    exists i | 0 <= i <= |hay| :: needle <= hay[i..]
  }

  predicate Matches(lib: Library, rule: Rule, r: PacketReport) {
    && (rule.protocol == "" || lib.equalFold(r.protocol, rule.protocol))
    && MatchIP(lib, rule.srcIP, r.srcIp)
    && MatchIP(lib, rule.dstIP, r.dstIp)
    && PortSpec.Accepts(rule.srcPort, rule.srcPortRange, r.srcPort)
    && PortSpec.Accepts(rule.dstPort, rule.dstPortRange, r.dstPort)
    && (rule.payloadHex == ""
        || (lib.decodeHex(rule.payloadHex).Some? && Contains(r.payloadPeek, lib.decodeHex(rule.payloadHex).value)))
    && (rule.payloadString == "" || Contains(r.payloadPeek, lib.utf8(rule.payloadString)))
    && (rule.compiledRegex.None? || lib.regexMatches(rule.compiledRegex.value, r.payloadPeek))
  }

  function ActionOf(lib: Library, rule: Rule): ActionType {
    var upper := lib.toUpper(rule.action);
    if upper == "RATE_LIMIT" then RATE_LIMIT else if upper == "ALLOW" then ALLOW else BLOCK
  }

  // Both fields of a threshold that fires are positive.
  function CommandFor(lib: Library, rule: Rule, r: PacketReport): ActionCommand
    requires rule.threshold.Some? ==> rule.threshold.value.packets > 0 && rule.threshold.value.windowSeconds > 0
  {
    var reason := match rule.threshold
      case None => rule.reason
      case Some(t) => rule.reason + " (Triggered by threshold: " + Strings.PrintNat(t.packets) + " packets in "
                      + Strings.PrintNat(t.windowSeconds) + "s)";
    ActionCommand(ActionOf(lib, rule), r.srcIp, reason, rule.duration, rule.rateLimitPPS)
  }

  // ----- The history map ------------------------------------------------------------------------

  type History = map<string, map<string, seq<int>>>

  // A missing entry and a nil slice read alike.
  function Stamps(h: History, id: string, src: string): seq<int> {
    if id in h && src in h[id] then h[id][src] else []
  }

  function Store(h: History, id: string, src: string, stamps: seq<int>): History {
    h[id := (if id in h then h[id] else map[])[src := stamps]]
  }

  lemma StoreTwice(h: History, id: string, src: string, first: seq<int>, second: seq<int>)
    ensures Store(Store(h, id, src, first), id, src, second) == Store(h, id, src, second)
  {
    var inner := if id in h then h[id] else map[];
    assert inner[src := first][src := second] == inner[src := second];
    assert h[id := inner[src := first]][id := inner[src := second]] == h[id := inner[src := second]];
  }

  // -time.Duration(w) * time.Second wraps as a signed 64-bit number of nanoseconds.
  function WrapInt64(x: int): int {
    (x + 0x8000_0000_0000_0000) % 0x1_0000_0000_0000_0000 - 0x8000_0000_0000_0000
  }

  // now minus the cutoff the source computes.
  function WindowNs(t: Threshold): int {
    -WrapInt64(-t.windowSeconds * 1_000_000_000)
  }

  lemma WindowWithoutWrap(t: Threshold)
    requires 0 <= t.windowSeconds <= 9_223_372_036
    ensures WindowNs(t) == t.windowSeconds * 1_000_000_000
  {
  }

  // ----- Specification of Evaluate ----------------------------------------------------------------

  predicate Ignored(rule: Rule) {
    rule.threshold.Some? && (rule.threshold.value.packets <= 0 || rule.threshold.value.windowSeconds <= 0)
  }

  predicate Counts(rule: Rule) {
    rule.threshold.Some? && !Ignored(rule)
  }

  // The new history, and the rule that answers the packet.
  datatype Outcome = Outcome(history: History, answer: Option<Rule>)

  function Try(lib: Library, rule: Rule, h: History, r: PacketReport, now: int): Outcome {
    if !Matches(lib, rule, r) || Ignored(rule) then Outcome(h, None)
    else match rule.threshold
      case None => Outcome(h, Some(rule))
      case Some(t) =>
        var (stamps, fired) := SlidingWindow.Hit(Stamps(h, rule.id, r.srcIp), now, WindowNs(t), t.packets);
        Outcome(Store(h, rule.id, r.srcIp, stamps), if fired then Some(rule) else None)
  }

  // The readings of the clock while one packet is evaluated, in order.
  type Clock = nat -> int

  // A rule that counts the packet reads the clock once.
  function Reads(lib: Library, rule: Rule, r: PacketReport): nat {
    if Matches(lib, rule, r) && Counts(rule) then 1 else 0
  }

  function Scan(lib: Library, rules: seq<Rule>, h: History, r: PacketReport, clock: Clock, n: nat): (o: Outcome)
    ensures o.answer.Some? ==> !Ignored(o.answer.value)
    decreases |rules|
  {
    if rules == [] then Outcome(h, None)
    else
      var o := Try(lib, rules[0], h, r, clock(n));
      if o.answer.Some? then o else Scan(lib, rules[1..], o.history, r, clock, n + Reads(lib, rules[0], r))
  }

  function Reply(lib: Library, o: Outcome, r: PacketReport): Option<ActionCommand>
    requires o.answer.Some? ==> !Ignored(o.answer.value)
  {
    if o.answer.Some? then Some(CommandFor(lib, o.answer.value, r)) else None
  }

  // ----- Specification of LoadRules -----------------------------------------------------------------

  datatype FileRead = ReadError | BadYaml | Parsed(rules: seq<Rule>)

  function Compiled(rule: Rule): Rule {
    if rule.payloadRegex == "" then rule else rule.(compiledRegex := Some(rule.payloadRegex))
  }

  // The rules a load installs: none unless the file reads, parses and every pattern compiles.
  function Loaded(lib: Library, file: FileRead): Option<seq<Rule>> {
    match file
    case Parsed(rules) =>
      if forall rule | rule in rules :: rule.payloadRegex == "" || lib.regexCompiles(rule.payloadRegex) then
        Some(seq(|rules|, i requires 0 <= i < |rules| => Compiled(rules[i])))
      else None
    case _ => None
  }

  /** The shared engine. Every method runs under its mutex. */
  class Engine {
    var rules: seq<Rule>
    var history: History
    var watching: bool

    constructor ()
      ensures rules == [] && history == map[] && !watching
    {
      rules, history, watching := [], map[], false;
    }

    // A rejected file leaves everything as it was; an accepted one forgets all history.
    method LoadRules(lib: Library, file: FileRead) returns (ok: bool)
      modifies this
      ensures ok <==> Loaded(lib, file).Some?
      ensures ok ==> rules == Loaded(lib, file).value && history == map[] && watching
      ensures !ok ==> rules == old(rules) && history == old(history) && watching == old(watching)
    {
      if !file.Parsed? {
        return false;
      }
      var config := file.rules;
      for i := 0 to |config|
        invariant |config| == |file.rules|
        invariant forall j | 0 <= j < i :: config[j] == Compiled(file.rules[j])
        invariant forall j | 0 <= j < i ::
                    file.rules[j].payloadRegex == "" || lib.regexCompiles(file.rules[j].payloadRegex)
        invariant forall j | i <= j < |config| :: config[j] == file.rules[j]
      {
        if config[i].payloadRegex != "" {
          if !lib.regexCompiles(config[i].payloadRegex) {
            assert file.rules[i] in file.rules;
            return false;
          }
          config := config[i := config[i].(compiledRegex := Some(config[i].payloadRegex))];
        }
      }
      rules := config;
      history := map[];
      watching := true;
      return true;
    }

    method Evaluate(lib: Library, r: PacketReport, clock: Clock) returns (command: Option<ActionCommand>)
      modifies this`history
      ensures history == Scan(lib, rules, old(history), r, clock, 0).history
      ensures command == Reply(lib, Scan(lib, rules, old(history), r, clock, 0), r)
    {
      var readings := 0;
      ghost var whole := Scan(lib, rules, history, r, clock, 0);
      for i := 0 to |rules|
        invariant Scan(lib, rules[i..], history, r, clock, readings) == whole
      {
        var rule := rules[i];
        assert rules[i..][0] == rule && rules[i..][1..] == rules[i + 1..];
        if Matches(lib, rule, r) {
          if rule.threshold.Some? {
            var t := rule.threshold.value;
            if t.packets > 0 && t.windowSeconds > 0 {
              var now := clock(readings);
              readings := readings + 1;
              var fired := CountHit(rule.id, r.srcIp, now, t);
              if fired {
                return Some(CommandFor(lib, rule, r));
              }
            }
          } else {
            return Some(CommandFor(lib, rule, r));
          }
        }
      }
      return None;
    }

    method CountHit(id: string, src: string, now: int, t: Threshold) returns (fired: bool)
      modifies this`history
      ensures var (stamps, hit) := SlidingWindow.Hit(Stamps(old(history), id, src), now, WindowNs(t), t.packets);
        fired == hit && history == Store(old(history), id, src, stamps)
    {
      Put(id, src, Stamps(history, id, src) + [now]);
      var cutoff := now + WrapInt64(-t.windowSeconds * 1_000_000_000);
      var validTimes := SlidingWindow.PruneLoop(Stamps(history, id, src), cutoff);
      Put(id, src, validTimes);
      fired := |validTimes| >= t.packets;
      if fired {
        Put(id, src, []);
      }
    }

    // An assignment to history[id][src], making the inner map if there is none.
    method Put(id: string, src: string, stamps: seq<int>)
      modifies this`history
      ensures history == Store(old(history), id, src, stamps)
      ensures Stamps(history, id, src) == stamps
      ensures forall later :: Store(history, id, src, later) == Store(old(history), id, src, later)
    {
      if id !in history {
        history := history[id := map[]];
      }
      history := history[id := history[id][src := stamps]];
      forall later
        ensures Store(history, id, src, later) == Store(old(history), id, src, later)
      {
        StoreTwice(old(history), id, src, stamps, later);
      }
    }
  }
}
