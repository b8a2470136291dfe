/** The XDP program: header bounds checks, the two block lists, the rate-limit map and the
    packet counters. Keys and frames are byte strings, as in the BPF maps. */
module XdpFilter {
  import opened Word64
  import TokenBucket

  type byte = x: int | 0 <= x < 256
  type Frame = seq<byte>
  type Key = seq<byte>

  const ETH_HEADER := 14
  const IPV4_HEADER := 20
  const IPV6_HEADER := 40

  // Every way out of the program, in source order. FellThrough is the last pair of statements.
  datatype Exit =
    | ShortEthernet
    | ShortIpv4
    | Blocked(src: Key)
    | Limited(src: Key)
    | ShortIpv6
    | BlockedV6(src: Key)
    | FellThrough
  {
    predicate Drops() { Blocked? || Limited? || BlockedV6? }
  }

  datatype Verdict = XdpDrop | XdpPass

  function VerdictOf(exit: Exit): Verdict {
    if exit.Drops() then XdpDrop else XdpPass
  }

  datatype Maps = Maps(blocked: set<Key>, blockedV6: set<Key>, buckets: map<Key, TokenBucket.Bucket>)

  // The EtherType read as a little-endian half-word: 0x0008 and 0xDD86.
  predicate IsIpv4(f: Frame) { |f| >= ETH_HEADER && f[12] == 0x08 && f[13] == 0x00 }
  predicate IsIpv6(f: Frame) { |f| >= ETH_HEADER && f[12] == 0x86 && f[13] == 0xDD }

  predicate HasIpv4Source(f: Frame) { IsIpv4(f) && |f| >= ETH_HEADER + IPV4_HEADER }
  predicate HasIpv6Source(f: Frame) { IsIpv6(f) && |f| >= ETH_HEADER + IPV6_HEADER }

  function Ipv4Source(f: Frame): Key
    requires HasIpv4Source(f)
  { f[26..30] }

  function Ipv6Source(f: Frame): Key
    requires HasIpv6Source(f)
  { f[22..38] }

  // Specification of one run of the program.
  function Inspect(m: Maps, f: Frame, now: u64): (Maps, Exit) {
    if |f| < ETH_HEADER then (m, ShortEthernet)
    else if IsIpv4(f) then
      if !HasIpv4Source(f) then (m, ShortIpv4)
      else
        var src := Ipv4Source(f);
        if src in m.blocked then (m, Blocked(src))
        else if src in m.buckets then
          var (b, passed) := TokenBucket.Arrive(m.buckets[src], now);
          (m.(buckets := m.buckets[src := b]), if passed then FellThrough else Limited(src))
        else (m, FellThrough)
    else if IsIpv6(f) then
      if !HasIpv6Source(f) then (m, ShortIpv6)
      else if Ipv6Source(f) in m.blockedV6 then (m, BlockedV6(Ipv6Source(f)))
      else (m, FellThrough)
    else (m, FellThrough)
  }

  class XdpProgram {
    var blocked: set<Key>
    var blockedV6: set<Key>
    var buckets: map<Key, TokenBucket.Bucket>
    const stats: array<u64>

    ghost function State(): Maps
      reads this
    { Maps(blocked, blockedV6, buckets) }

    ghost predicate Valid()
      reads this
    { stats.Length == 4 }

    constructor ()
      ensures Valid() && fresh(stats)
      ensures State() == Maps({}, {}, map[])
      ensures forall i | 0 <= i < 4 :: stats[i] == 0
    {
      blocked, blockedV6, buckets := {}, {}, map[];
      stats := new u64[4](_ => 0);
    }

    method UpdateStat(index: nat)
      requires Valid()
      modifies stats
      ensures stats[..] == if index < 4 then old(stats[..])[index := Incremented(old(stats[..])[index])]
                           else old(stats[..])
    {
      if index < stats.Length {
        stats[index] := Incremented(stats[index]);
      }
    }

    // tb->tokens and tb->last_time_ns, updated in place in the order of the source.
    method TakeToken(src: Key, now: u64) returns (passed: bool)
      requires src in buckets
      modifies this`buckets
      ensures src in buckets && (buckets[src], passed) == TokenBucket.Arrive(old(buckets)[src], now)
      ensures buckets == old(buckets)[src := buckets[src]]
    {
      var tb := buckets[src];
      var elapsed: u64 := Wrap(now - tb.lastTime);
      if elapsed > 0 && tb.rate > 0 {
        var newTokens: u64 := Wrap(elapsed * tb.rate) / 1_000_000_000;
        if newTokens > 0 {
          tb := tb.(tokens := Wrap((tb.tokens as int) + newTokens));
          if tb.tokens > tb.rate {
            tb := tb.(tokens := tb.rate);
          }
          tb := tb.(lastTime := now);
          buckets := buckets[src := tb];
        }
      }
      passed := tb.tokens >= 1;
      if passed {
        buckets := buckets[src := tb.(tokens := tb.tokens - 1)];
      }
    }

    method Filter(f: Frame, now: u64) returns (verdict: Verdict)
      requires Valid()
      modifies this, stats
      ensures State() == Inspect(old(State()), f, now).0
      ensures verdict == VerdictOf(Inspect(old(State()), f, now).1)
      ensures stats[0] == Incremented(old(stats[0]))
      ensures stats[1] == if verdict == XdpDrop then Incremented(old(stats[1])) else old(stats[1])
      ensures stats[2] == if verdict == XdpPass then Incremented(old(stats[2])) else old(stats[2])
      ensures stats[3] == old(stats[3])
    {
      UpdateStat(0);
      if |f| < ETH_HEADER {
        UpdateStat(2);
        return XdpPass;
      }
      if f[12] == 0x08 && f[13] == 0x00 {
        if |f| < ETH_HEADER + IPV4_HEADER {
          UpdateStat(2);
          return XdpPass;
        }
        var src := Ipv4Source(f);
        if src in blocked {
          UpdateStat(1);
          return XdpDrop;
        }
        if src in buckets {
          var passed := TakeToken(src, now);
          if !passed {
            UpdateStat(1);
            return XdpDrop;
          }
        }
      } else if f[12] == 0x86 && f[13] == 0xDD {
        if |f| < ETH_HEADER + IPV6_HEADER {
          UpdateStat(2);
          return XdpPass;
        }
        if Ipv6Source(f) in blockedV6 {
          UpdateStat(1);
          return XdpDrop;
        }
      }
      UpdateStat(2);
      return XdpPass;
    }
  }

  // ----- Whole traffic: packets of any sources, and block-list edits by the agent ----------

  datatype Event = Packet(frame: Frame, now: u64) | Block(key: Key) | Unblock(key: Key)

  function Apply(m: Maps, e: Event): Maps {
    match e
    case Packet(f, now) => Inspect(m, f, now).0
    case Block(k) => m.(blocked := m.blocked + {k})
    case Unblock(k) => m.(blocked := m.blocked - {k})
  }

  function Run(m: Maps, es: seq<Event>): Maps
    decreases |es|
  {
    if es == [] then m else Run(Apply(m, es[0]), es[1..])
  }

  // A packet of source s that gets as far as the rate limiter.
  predicate Reaches(m: Maps, s: Key, e: Event) {
    e.Packet? && HasIpv4Source(e.frame) && Ipv4Source(e.frame) == s && s !in m.blocked
  }

  function Arrivals(m: Maps, s: Key, es: seq<Event>): seq<u64>
    decreases |es|
  {
    if es == [] then []
    else (if Reaches(m, s, es[0]) then [es[0].now] else []) + Arrivals(Apply(m, es[0]), s, es[1..])
  }

  // Whether each of those packets was let through.
  function Outcomes(m: Maps, s: Key, es: seq<Event>): seq<bool>
    decreases |es|
  {
    if es == [] then []
    else (if Reaches(m, s, es[0]) then [!Inspect(m, es[0].frame, es[0].now).1.Drops()] else [])
         + Outcomes(Apply(m, es[0]), s, es[1..])
  }

  // Interleaved traffic treats a source exactly as its own packets alone would.
  lemma {:induction false} SourceIsolated(m: Maps, s: Key, es: seq<Event>)
    requires s in m.buckets
    ensures s in Run(m, es).buckets
    ensures Outcomes(m, s, es) == TokenBucket.Verdicts(m.buckets[s], Arrivals(m, s, es))
    ensures Run(m, es).buckets[s] == TokenBucket.After(m.buckets[s], Arrivals(m, s, es))
    decreases |es|
  {
    if es == [] {
    } else {
      var e, m' := es[0], Apply(m, es[0]);
      SourceIsolated(m', s, es[1..]);
      if Reaches(m, s, e) {
        var ts := Arrivals(m', s, es[1..]);
        assert Arrivals(m, s, es) == [e.now] + ts;
        assert ([e.now] + ts)[1..] == ts;
      } else {
        assert m'.buckets[s] == m.buckets[s];
        assert Arrivals(m, s, es) == Arrivals(m', s, es[1..]);
      }
    }
  }

  ghost predicate Clocked(es: seq<Event>) {
    forall i, j | 0 <= i < j < |es| && es[i].Packet? && es[j].Packet? :: es[i].now <= es[j].now
  }

  lemma {:induction false} ArrivalIsAPacket(m: Maps, s: Key, es: seq<Event>, k: nat) returns (i: nat)
    requires k < |Arrivals(m, s, es)|
    ensures i < |es| && es[i].Packet? && es[i].now == Arrivals(m, s, es)[k]
    decreases |es|
  {
    if Reaches(m, s, es[0]) && k == 0 {
      i := 0;
    } else {
      i := ArrivalIsAPacket(Apply(m, es[0]), s, es[1..], if Reaches(m, s, es[0]) then k - 1 else k);
      i := i + 1;
    }
  }

  lemma {:induction false} ArrivalsFollowClock(m: Maps, s: Key, es: seq<Event>)
    requires Clocked(es)
    ensures TokenBucket.Nondecreasing(Arrivals(m, s, es))
    decreases |es|
  {
    if es == [] {
    } else {
      var rest := Arrivals(Apply(m, es[0]), s, es[1..]);
      ArrivalsFollowClock(Apply(m, es[0]), s, es[1..]);
      if Reaches(m, s, es[0]) {
        forall k | 0 <= k < |rest|
          ensures es[0].now <= rest[k]
        {
          var i := ArrivalIsAPacket(Apply(m, es[0]), s, es[1..], k);
          assert es[1..][i] == es[i + 1];
        }
        assert Arrivals(m, s, es) == [es[0].now] + rest;
      } else {
        assert Arrivals(m, s, es) == rest;
      }
    }
  }

  // After any past traffic, in any further traffic of any sources, a rate-limited source gets at
  // most burst + floor((rate * span + 10^9 - 1) / 10^9) packets through, span running from its
  // first to its last packet that reached the limiter. burst is the rate, unless the bucket was
  // installed with more tokens than that.
  lemma RateHolds(m: Maps, s: Key, past: seq<Event>, es: seq<Event>)
    requires s in m.buckets && Clocked(es)
    requires Arrivals(Run(m, past), s, es) != []
    ensures var ts, b := Arrivals(Run(m, past), s, es), m.buckets[s];
      && |Outcomes(Run(m, past), s, es)| == |ts|
      && ts[0] <= ts[|ts| - 1]
      && TokenBucket.CountTrue(Outcomes(Run(m, past), s, es))
         <= TokenBucket.Burst(b) + (b.rate * (ts[|ts| - 1] - ts[0]) + 1_000_000_000 - 1) / 1_000_000_000
  {
    var now := Run(m, past);
    SourceIsolated(m, s, past);
    TokenBucket.AfterKeepsBurst(m.buckets[s], Arrivals(m, s, past));
    ArrivalsFollowClock(now, s, es);
    SourceIsolated(now, s, es);
    TokenBucket.VerdictPerArrival(now.buckets[s], Arrivals(now, s, es));
    TokenBucket.WindowBound(now.buckets[s], Arrivals(now, s, es));
    hide Run, Arrivals, Outcomes, TokenBucket.Verdicts, TokenBucket.CountTrue, TokenBucket.After, Clocked;
  }

  // A source on the block list gets nothing through until it is taken off.
  lemma {:induction false} BlockedGetsNothing(m: Maps, s: Key, es: seq<Event>)
    requires s in m.blocked && (forall i | 0 <= i < |es| :: es[i] != Unblock(s))
    ensures Arrivals(m, s, es) == []
    ensures forall i | 0 <= i < |es| && es[i].Packet? && HasIpv4Source(es[i].frame) && Ipv4Source(es[i].frame) == s ::
      Inspect(Run(m, es[..i]), es[i].frame, es[i].now).1 == Blocked(s)
    decreases |es|
  {
    if es == [] {
    } else {
      BlockedGetsNothing(Apply(m, es[0]), s, es[1..]);
      forall i | 0 < i < |es| && es[i].Packet? && HasIpv4Source(es[i].frame) && Ipv4Source(es[i].frame) == s
        ensures Inspect(Run(m, es[..i]), es[i].frame, es[i].now).1 == Blocked(s)
      {
        assert es[..i][1..] == es[1..][..i - 1];
        assert es[i] == es[1..][i - 1];
      }
    }
  }
}
