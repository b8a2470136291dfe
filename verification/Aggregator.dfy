/** The flow aggregator: per-flow counters, export at 200 packets, a periodic sweep of expired
    flows, and a bounded channel that drops what does not fit. Times are nanoseconds. */
module Aggregator {
  import opened Wrappers
  import opened Proto
  import opened Features

  const WINDOW := 5_000_000_000
  const MIN_PACKETS := 3
  const MAX_PACKETS := 200
  const CHANNEL_CAPACITY := 256

  datatype FlowKey = FlowKey(srcIP: string, dstIP: string, dstPort: u32, protocol: string)

  datatype FlowState = FlowState(firstSeen: int, lastSeen: int, totalPackets: int, totalBytes: int,
                                 fwdPackets: int, fwdBytes: int, dstPort: u32)

  datatype FlowResult = FlowResult(key: FlowKey, srcIP: string, features: FlowFeatures, packetCount: int)

  function KeyOf(r: PacketReport): FlowKey {
    FlowKey(r.srcIp, r.dstIp, r.dstPort, r.protocol)
  }

  // Duration.Microseconds truncates towards zero; a report read late can make the duration negative.
  function Microseconds(ns: int): int {
    if ns >= 0 then ns / 1000 else -((-ns) / 1000)
  }

  function ToFeatures(s: FlowState): FlowFeatures {
    var elapsed := s.lastSeen - s.firstSeen;
    var seconds := if elapsed <= 0 then 0.001 else elapsed as real / 1_000_000_000.0;
    FlowFeatures(s.dstPort as real, Microseconds(elapsed) as real, s.fwdPackets as real, s.fwdBytes as real,
                 s.totalBytes as real / seconds, s.totalPackets as real / seconds,
                 if s.totalPackets > 0 then s.totalBytes as real / s.totalPackets as real else 0.0)
  }

  function Export(key: FlowKey, s: FlowState): FlowResult {
    FlowResult(key, key.srcIP, ToFeatures(s), s.totalPackets)
  }

  // ready is the sweep goroutine's own list of results it has collected and not yet pushed.
  datatype State = State(flows: map<FlowKey, FlowState>, ready: seq<FlowResult>, channel: seq<FlowResult>)

  function Accumulate(flows: map<FlowKey, FlowState>, r: PacketReport, now: int): FlowState {
    var s := if KeyOf(r) in flows then flows[KeyOf(r)] else FlowState(now, 0, 0, 0, 0, 0, r.dstPort);
    s.(lastSeen := now, totalPackets := s.totalPackets + 1, totalBytes := s.totalBytes + r.length,
       fwdPackets := s.fwdPackets + 1, fwdBytes := s.fwdBytes + r.length)
  }

  function Ingest(st: State, r: PacketReport, now: int): (State, Option<FlowResult>) {
    var key, s := KeyOf(r), Accumulate(st.flows, r, now);
    if s.totalPackets >= MAX_PACKETS then (st.(flows := st.flows - {key}), Some(Export(key, s)))
    else (st.(flows := st.flows[key := s]), None)
  }

  predicate Expired(s: FlowState, now: int) {
    now - s.firstSeen >= WINDOW
  }

  // What the sweep does when it comes to one key.
  function SweepKey(st: State, now: int, key: FlowKey): State {
    if key !in st.flows || !Expired(st.flows[key], now) then st
    else if st.flows[key].totalPackets >= MIN_PACKETS then
      st.(flows := st.flows - {key}, ready := st.ready + [Export(key, st.flows[key])])
    else st.(flows := st.flows - {key})
  }

  // The whole locked pass, in the order in which the map happens to be iterated.
  function Sweep(st: State, now: int, order: seq<FlowKey>): State
    decreases |order|
  {
    if order == [] then st else Sweep(SweepKey(st, now, order[0]), now, order[1..])
  }

  // Offer the first ready result to the channel; a full channel loses it.
  function Push(st: State): State
    requires st.ready != []
  {
    var st' := st.(ready := st.ready[1..]);
    if |st.channel| < CHANNEL_CAPACITY then st'.(channel := st.channel + [st.ready[0]]) else st'
  }

  function Receive(st: State): (State, FlowResult)
    requires st.channel != []
  {
    (st.(channel := st.channel[1..]), st.channel[0])
  }

  /** The shared aggregator. Ingest and the collecting half of the sweep run under the mutex. */
  class FlowAggregator {
    var flows: map<FlowKey, FlowState>
    var ready: seq<FlowResult>
    var results: seq<FlowResult>

    ghost function Contents(): State
      reads this
    { State(flows, ready, results) }

    constructor ()
      ensures Contents() == State(map[], [], [])
    {
      flows, ready, results := map[], [], [];
    }

    method IngestReport(report: PacketReport, now: int) returns (result: Option<FlowResult>)
      modifies this`flows
      ensures (Contents(), result) == Ingest(old(Contents()), report, now)
    {
      var key := FlowKey(report.srcIp, report.dstIp, report.dstPort, report.protocol);
      if key !in flows {
        flows := flows[key := FlowState(now, 0, 0, 0, 0, 0, report.dstPort)];
      }
      var s := flows[key];
      s := s.(lastSeen := now, totalPackets := s.totalPackets + 1, totalBytes := s.totalBytes + report.length,
              fwdPackets := s.fwdPackets + 1, fwdBytes := s.fwdBytes + report.length);
      flows := flows[key := s];
      assert flows == old(flows)[key := s] && s == Accumulate(old(flows), report, now);
      result := None;
      if s.totalPackets >= MAX_PACKETS {
        flows := flows - {key};
        assert flows == old(flows) - {key};
        result := Some(Export(key, s));
      }
    }

    // order reports the order in which the keys were visited: each key of the map once.
    method Collect(now: int) returns (ghost order: seq<FlowKey>)
      modifies this`flows, this`ready
      ensures Contents() == Sweep(old(Contents()), now, order)
      ensures forall key :: key in old(flows) <==> key in order
      ensures forall i, j | 0 <= i < j < |order| :: order[i] != order[j]
    {
      order := [];
      var todo := flows.Keys;
      while todo != {}
        invariant Contents() == Sweep(old(Contents()), now, order)
        invariant forall key :: key in old(flows) <==> key in order || key in todo
        invariant forall i, j | 0 <= i < j < |order| :: order[i] != order[j]
        invariant forall key | key in order :: key !in todo
        invariant forall key | key in todo :: key in flows
        decreases todo
      {
        var key :| key in todo;
        var s := flows[key];
        SweepLast(old(Contents()), now, order, key);
        if now - s.firstSeen >= WINDOW && s.totalPackets >= MIN_PACKETS {
          ready := ready + [Export(key, s)];
          flows := flows - {key};
        } else if now - s.firstSeen >= WINDOW {
          flows := flows - {key};
        }
        order := order + [key];
        todo := todo - {key};
      }
    }

    method PushNext()
      requires ready != []
      modifies this`ready, this`results
      ensures Contents() == Push(old(Contents()))
    {
      if |results| < CHANNEL_CAPACITY {
        results := results + [ready[0]];
      }
      ready := ready[1..];
    }

    method ReceiveNext() returns (result: FlowResult)
      requires results != []
      modifies this`results
      ensures (Contents(), result) == Receive(old(Contents()))
    {
      result := results[0];
      results := results[1..];
    }
  }

  lemma {:induction false} SweepLast(st: State, now: int, order: seq<FlowKey>, key: FlowKey)
    ensures Sweep(st, now, order + [key]) == SweepKey(Sweep(st, now, order), now, key)
    decreases |order|
  {
    if order == [] {
      assert [key][1..] == [];
    } else {
      SweepLast(SweepKey(st, now, order[0]), now, order[1..], key);
      assert (order + [key])[1..] == order[1..] + [key];
    }
  }

  // ----- What one sweep leaves behind ---------------------------------------------------------------

  // A sweep removes exactly the expired flows and touches no other.
  lemma {:induction false} SweepLeavesUnexpired(st: State, now: int, order: seq<FlowKey>)
    ensures forall key :: (key in Sweep(st, now, order).flows
                           <==> key in st.flows && !(key in order && now - st.flows[key].firstSeen >= 5_000_000_000))
    ensures forall key | key in Sweep(st, now, order).flows :: Sweep(st, now, order).flows[key] == st.flows[key]
    ensures Sweep(st, now, order).channel == st.channel
    decreases |order|
  {
    if order == [] {
    } else {
      SweepLeavesUnexpired(SweepKey(st, now, order[0]), now, order[1..]);
    }
  }
}
