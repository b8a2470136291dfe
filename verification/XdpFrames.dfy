/** The XDP program in terms of raw frames: which bytes decide, and what they change. Nothing here
    goes through the header functions of the filter. */
module XdpFrames {
  import opened Word64
  import opened XdpFilter
  import TokenBucket

  // Offsets into the frame: an Ethernet header of 14 bytes, the type in its last two; the source at
  // 12 in an IPv4 header of 20 bytes and at 8 in an IPv6 header of 40.
  predicate CarriesIpv4(f: Frame) {
    |f| >= 34 && f[12] == 0x08 && f[13] == 0x00
  }

  predicate CarriesIpv6(f: Frame) {
    |f| >= 54 && f[12] == 0x86 && f[13] == 0xDD
  }

  function SenderV4(f: Frame): Key
    requires |f| >= 34
  {
    [f[26], f[27], f[28], f[29]]
  }

  function SenderV6(f: Frame): Key
    requires |f| >= 54
  {
    [f[22], f[23], f[24], f[25], f[26], f[27], f[28], f[29],
     f[30], f[31], f[32], f[33], f[34], f[35], f[36], f[37]]
  }

  // The packet finds no token: nothing stored and no refill due, or a refill whose wrapped sum is none.
  predicate NothingToSpend(b: TokenBucket.Bucket, now: u64) {
    var product := (((now - b.lastTime) % 0x1_0000_0000_0000_0000) * b.rate) % 0x1_0000_0000_0000_0000;
    if product < 1_000_000_000 then b.tokens == 0
    else (b.tokens + product / 1_000_000_000) % 0x1_0000_0000_0000_0000 == 0
  }

  lemma NothingToSpendIff(b: TokenBucket.Bucket, now: u64)
    ensures NothingToSpend(b, now) <==> !TokenBucket.Arrive(b, now).1
  {
    TokenBucket.PassesIff(b, now);
  }

  lemma SendersAgree(f: Frame)
    ensures HasIpv4Source(f) <==> CarriesIpv4(f)
    ensures HasIpv6Source(f) <==> CarriesIpv6(f)
    ensures CarriesIpv4(f) ==> Ipv4Source(f) == SenderV4(f)
    ensures CarriesIpv6(f) ==> Ipv6Source(f) == SenderV6(f)
  {
  }

  // Exactly which frames are dropped.
  lemma DropIff(m: Maps, f: Frame, now: u64)
    ensures VerdictOf(Inspect(m, f, now).1) == XdpDrop
            <==> || (CarriesIpv4(f) && SenderV4(f) in m.blocked)
                 || (CarriesIpv4(f) && SenderV4(f) in m.buckets && NothingToSpend(m.buckets[SenderV4(f)], now))
                 || (CarriesIpv6(f) && SenderV6(f) in m.blockedV6)
  {
    SendersAgree(f);
    hide HasIpv4Source, HasIpv6Source, Ipv4Source, Ipv6Source, CarriesIpv4, CarriesIpv6, SenderV4, SenderV6;
    hide NothingToSpend, TokenBucket.Arrive;
    if HasIpv4Source(f) && Ipv4Source(f) in m.buckets {
      NothingToSpendIff(m.buckets[Ipv4Source(f)], now);
    }
    FrameKinds(f);
  }

  lemma FrameKinds(f: Frame)
    ensures HasIpv4Source(f) ==> |f| >= ETH_HEADER && IsIpv4(f)
    ensures HasIpv6Source(f) ==> |f| >= ETH_HEADER && IsIpv6(f) && !IsIpv4(f)
    ensures IsIpv4(f) && !HasIpv4Source(f) ==> |f| < 34
  {
  }

  // Exactly what one frame changes: the bucket of a rate-limited IPv4 sender that is not blocked. It
  // then holds what OnHand says, less the one spent, and its time moves only with a refill.
  lemma ChangesOneBucket(m: Maps, f: Frame, now: u64)
    ensures var m' := Inspect(m, f, now).0;
      && m'.blocked == m.blocked && m'.blockedV6 == m.blockedV6
      && (if CarriesIpv4(f) && SenderV4(f) !in m.blocked && SenderV4(f) in m.buckets then
            var b := m.buckets[SenderV4(f)];
            var n := TokenBucket.OnHand(b, now);
            var refilled := TokenBucket.Residue(b, now) >= 1_000_000_000;
            m'.buckets == m.buckets[SenderV4(f) := TokenBucket.Bucket(if refilled then now else b.lastTime,
                                                                      if n >= 1 then n - 1 else 0, b.rate)]
          else m'.buckets == m.buckets)
  {
    SendersAgree(f);
    hide HasIpv4Source, HasIpv6Source, Ipv4Source, Ipv6Source, CarriesIpv4, CarriesIpv6, SenderV4, SenderV6;
    hide TokenBucket.Arrive, TokenBucket.OnHand, TokenBucket.Residue;
    FrameKinds(f);
    if HasIpv4Source(f) && Ipv4Source(f) in m.buckets {
      TokenBucket.ArriveSpends(m.buckets[Ipv4Source(f)], now);
    }
  }

  // The bytes that matter: length, type, and the sender where the type has one.
  ghost predicate AlikeToFilter(f: Frame, g: Frame) {
    && |f| == |g|
    && (|f| >= 14 ==> f[12] == g[12] && f[13] == g[13])
    && (CarriesIpv4(f) ==> f[26] == g[26] && f[27] == g[27] && f[28] == g[28] && f[29] == g[29])
    && (CarriesIpv6(f) ==> forall i | 22 <= i <= 37 :: f[i] == g[i])
  }

  // Destination, ports, payload and every other byte are ignored.
  lemma OtherBytesIgnored(m: Maps, f: Frame, g: Frame, now: u64)
    requires AlikeToFilter(f, g)
    ensures VerdictOf(Inspect(m, f, now).1) == VerdictOf(Inspect(m, g, now).1)
    ensures Inspect(m, f, now).0 == Inspect(m, g, now).0
  {
    assert CarriesIpv4(f) <==> CarriesIpv4(g);
    assert CarriesIpv6(f) <==> CarriesIpv6(g);
    assert CarriesIpv4(f) ==> SenderV4(f) == SenderV4(g);
    assert CarriesIpv6(f) ==> SenderV6(f) == SenderV6(g);
    hide CarriesIpv4, CarriesIpv6, SenderV4, SenderV6, Inspect, NothingToSpend, TokenBucket.OnHand, TokenBucket.Residue;
    DropIff(m, f, now);
    DropIff(m, g, now);
    ChangesOneBucket(m, f, now);
    ChangesOneBucket(m, g, now);
  }

  // ----- Edits of the block list ------------------------------------------------------------------------

  // What the last edit of key in the traffic did to it; listed says how it was before.
  predicate ListedAfter(es: seq<Event>, key: Key, listed: bool) {
    if es == [] then listed
    else if es[|es| - 1] == Block(key) then true
    else if es[|es| - 1] == Unblock(key) then false
    else ListedAfter(es[..|es| - 1], key, listed)
  }

  lemma {:induction false} RunLast(m: Maps, es: seq<Event>, e: Event)
    ensures Run(m, es + [e]) == Apply(Run(m, es), e)
    decreases |es|
  {
    if es == [] {
      assert [e][1..] == [];
      assert [] + [e] == [e];
      assert Run(Apply(m, e), []) == Apply(m, e);
    } else {
      assert (es + [e])[1..] == es[1..] + [e];
      RunLast(Apply(m, es[0]), es[1..], e);
    }
  }

  // A key is on the list exactly when its last edit put it there, whatever packets came between; the
  // IPv6 list is never edited.
  lemma {:induction false} ListFollowsEdits(m: Maps, es: seq<Event>, key: Key)
    ensures key in Run(m, es).blocked <==> ListedAfter(es, key, key in m.blocked)
    ensures Run(m, es).blockedV6 == m.blockedV6
  {
    if es == [] {
    } else {
      var most, last := es[..|es| - 1], es[|es| - 1];
      assert es == most + [last];
      RunLast(m, most, last);
      ListFollowsEdits(m, most, key);
      if last.Packet? {
        ChangesOneBucket(Run(m, most), last.frame, last.now);
      }
      hide Run, Inspect;
    }
  }

  // A frame of a sender that the last edit listed is dropped.
  lemma ListedSenderIsDropped(m: Maps, es: seq<Event>, f: Frame, now: u64)
    requires CarriesIpv4(f) && ListedAfter(es, SenderV4(f), SenderV4(f) in m.blocked)
    ensures VerdictOf(Inspect(Run(m, es), f, now).1) == XdpDrop
  {
    hide Inspect, Run, ListedAfter;
    ListFollowsEdits(m, es, SenderV4(f));
    DropIff(Run(m, es), f, now);
  }

  // ----- How much a rate-limited source gets ------------------------------------------------------------

  // In traffic of any sources, of the packets of s that reach the limiter at one instant exactly as
  // many pass as there are tokens.
  lemma InstantBurst(m: Maps, s: Key, es: seq<Event>, now: u64)
    requires s in m.buckets
    requires forall i | 0 <= i < |Arrivals(m, s, es)| :: Arrivals(m, s, es)[i] == now
    ensures TokenBucket.CountTrue(Outcomes(m, s, es))
         == TokenBucket.Min(|Arrivals(m, s, es)|, TokenBucket.OnHand(m.buckets[s], now))
  {
    hide Arrivals, Outcomes, Run, TokenBucket.OnHand, TokenBucket.CountTrue, TokenBucket.Verdicts;
    SourceIsolated(m, s, es);
    TokenBucket.InstantExact(m.buckets[s], Arrivals(m, s, es), now);
  }

  // After a quiet second, all of them as long as there are no more than the rate.
  lemma QuietSourceGetsItsRate(m: Maps, s: Key, es: seq<Event>, now: u64)
    requires s in m.buckets && |Arrivals(m, s, es)| <= m.buckets[s].rate
    requires forall i | 0 <= i < |Arrivals(m, s, es)| :: Arrivals(m, s, es)[i] == now
    requires var b := m.buckets[s];
      && b.lastTime + 1_000_000_000 <= now && (now - b.lastTime) * b.rate < 0x1_0000_0000_0000_0000
      && b.tokens <= b.rate < 0x1_0000_0000_0000_0000 - 0x1_0000_0000_0000_0000 / 1_000_000_000
    ensures Outcomes(m, s, es) == seq(|Arrivals(m, s, es)|, _ => true)
  {
    hide Arrivals, Outcomes, Run, TokenBucket.OnHand, TokenBucket.Verdicts;
    SourceIsolated(m, s, es);
    TokenBucket.QuietSecondAdmitsRate(m.buckets[s], Arrivals(m, s, es), now);
    TokenBucket.VerdictPerArrival(m.buckets[s], Arrivals(m, s, es));
    AllTrue(Outcomes(m, s, es));
  }

  lemma {:induction false} AllTrue(vs: seq<bool>)
    ensures TokenBucket.CountTrue(vs) <= |vs|
    ensures TokenBucket.CountTrue(vs) == |vs| ==> forall i | 0 <= i < |vs| :: vs[i]
  {
    if vs == [] {
    } else {
      AllTrue(vs[1..]);
    }
  }
}
