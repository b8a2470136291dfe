/** The timestamp list behind one (rule, source) pair: append, prune, trigger, reset. */
module SlidingWindow {

  // The timestamps strictly after the cutoff, in order.
  function Prune(stamps: seq<int>, cutoff: int): seq<int> {
    if stamps == [] then []
    else (if stamps[0] > cutoff then [stamps[0]] else []) + Prune(stamps[1..], cutoff)
  }

  // One packet at time now: the new list, and whether the threshold is reached.
  function Hit(stamps: seq<int>, now: int, window: int, packets: int): (seq<int>, bool) {
    var valid := Prune(stamps + [now], now - window);
    if |valid| >= packets then ([], true) else (valid, false)
  }

  // The reference: nothing is ever discarded except by a trigger.
  function FullHit(log: seq<int>, now: int, window: int, packets: int): (seq<int>, bool) {
    if |Prune(log + [now], now - window)| >= packets then ([], true) else (log + [now], false)
  }

  // The loop of the source over the stored times.
  method PruneLoop(stamps: seq<int>, cutoff: int) returns (valid: seq<int>)
    ensures valid == Prune(stamps, cutoff)
  {
    valid := [];
    for i := 0 to |stamps|
      invariant Prune(stamps, cutoff) == valid + Prune(stamps[i..], cutoff)
    {
      assert stamps[i..][1..] == stamps[i + 1..];
      ghost var rest := Prune(stamps[i + 1..], cutoff);
      assert valid + ([stamps[i]] + rest) == (valid + [stamps[i]]) + rest && [] + rest == rest;
      if stamps[i] > cutoff {
        valid := valid + [stamps[i]];
      }
    }
  }

  lemma {:induction false} PruneAppend(a: seq<int>, b: seq<int>, cutoff: int)
    ensures Prune(a + b, cutoff) == Prune(a, cutoff) + Prune(b, cutoff)
  {
    if a == [] {
      assert a + b == b;
    } else {
      PruneAppend(a[1..], b, cutoff);
      assert (a + b)[1..] == a[1..] + b;
      var head := if a[0] > cutoff then [a[0]] else [];
      assert head + (Prune(a[1..], cutoff) + Prune(b, cutoff)) == (head + Prune(a[1..], cutoff)) + Prune(b, cutoff);
    }
  }

  // A later cutoff makes an earlier pruning invisible.
  lemma {:induction false} PruneTwice(stamps: seq<int>, early: int, late: int)
    requires early <= late
    ensures Prune(Prune(stamps, early), late) == Prune(stamps, late)
  {
    if stamps == [] {
    } else {
      PruneTwice(stamps[1..], early, late);
      PruneAppend(if stamps[0] > early then [stamps[0]] else [], Prune(stamps[1..], early), late);
    }
  }

  lemma {:induction false} PruneShrinks(stamps: seq<int>, cutoff: int)
    ensures |Prune(stamps, cutoff)| <= |stamps|
  {
    if stamps == [] {
    } else {
      PruneShrinks(stamps[1..], cutoff);
    }
  }

  lemma {:induction false} PruneKeepsAll(stamps: seq<int>, cutoff: int)
    requires forall i | 0 <= i < |stamps| :: stamps[i] > cutoff
    ensures Prune(stamps, cutoff) == stamps
  {
    if stamps == [] {
    } else {
      PruneKeepsAll(stamps[1..], cutoff);
    }
  }

  // The two lists answer alike for every cutoff a packet at time now or later can use.
  ghost predicate SameFrom(stamps: seq<int>, log: seq<int>, cutoff: int) {
    forall c | c >= cutoff :: Prune(stamps, c) == Prune(log, c)
  }

  lemma HitAgrees(stamps: seq<int>, log: seq<int>, past: int, now: int, window: int, packets: int)
    requires SameFrom(stamps, log, past - window) && past <= now
    ensures Hit(stamps, now, window, packets).1 == FullHit(log, now, window, packets).1
    ensures SameFrom(Hit(stamps, now, window, packets).0, FullHit(log, now, window, packets).0, now - window)
  {
    forall c | c >= now - window
      ensures Prune(stamps + [now], c) == Prune(log + [now], c)
      ensures Prune(Prune(stamps + [now], now - window), c) == Prune(stamps + [now], c)
    {
      PruneAppend(stamps, [now], c);
      PruneAppend(log, [now], c);
      PruneTwice(stamps + [now], now - window, c);
    }
  }

  lemma {:induction false} PrunedLength(stamps: seq<int>, early: int, late: int)
    requires early <= late
    ensures |Prune(stamps, late)| <= |Prune(stamps, early)|
    ensures |Prune(stamps, late)| == |Prune(stamps, early)|
            <==> forall i | 0 <= i < |stamps| :: stamps[i] > late || stamps[i] <= early
    ensures (forall i | 0 <= i < |stamps| :: stamps[i] > late || stamps[i] <= early)
            ==> Prune(stamps, late) == Prune(stamps, early)
  {
    if stamps == [] {
    } else {
      PrunedLength(stamps[1..], early, late);
      assert stamps == [stamps[0]] + stamps[1..];
    }
  }

  lemma {:induction false} PrunedKeeps(stamps: seq<int>, cutoff: int, c: int)
    requires c <= cutoff
    ensures Prune(Prune(stamps, cutoff), c) == Prune(stamps, cutoff)
  {
    if stamps == [] {
    } else {
      var rest := Prune(stamps[1..], cutoff);
      PrunedKeeps(stamps[1..], cutoff, c);
      assert ([stamps[0]] + rest)[1..] == rest && [] + rest == rest;
    }
  }

  // Some time that is wanted from `from` on goes when pruning at cutoff.
  predicate Loses(stamps: seq<int>, cutoff: int, from: int) {
    exists i | 0 <= i < |stamps| :: from < stamps[i] <= cutoff
  }

  // Pruning at one cutoff is invisible from another on if and only if no time lies between the two.
  lemma PruneInvisibleIff(stamps: seq<int>, cutoff: int, from: int)
    ensures SameFrom(Prune(stamps, cutoff), stamps, from) <==> !Loses(stamps, cutoff, from)
  {
    if cutoff <= from {
      forall c | c >= from
        ensures Prune(Prune(stamps, cutoff), c) == Prune(stamps, c)
      {
        PruneTwice(stamps, cutoff, c);
      }
    } else if !Loses(stamps, cutoff, from) {
      forall c | c >= from
        ensures Prune(Prune(stamps, cutoff), c) == Prune(stamps, c)
      {
        if c >= cutoff {
          PruneTwice(stamps, cutoff, c);
        } else {
          PrunedLength(stamps, c, cutoff);
          PrunedKeeps(stamps, cutoff, c);
        }
      }
    } else {
      PrunedKeeps(stamps, cutoff, from);
      PrunedLength(stamps, from, cutoff);
    }
  }

  // A hit of one window that does not trigger is harmless to another window on the same list if and
  // only if it drops no time which that window still reaches.
  lemma HitLosesIff(stamps: seq<int>, log: seq<int>, now: int, window: int, packets: int, other: int)
    requires SameFrom(stamps, log, now - other)
    requires !Hit(stamps, now, window, packets).1 && !FullHit(log, now, window, packets).1
    ensures SameFrom(Hit(stamps, now, window, packets).0, FullHit(log, now, window, packets).0, now - other)
            <==> !Loses(stamps + [now], now - window, now - other)
  {
    PruneInvisibleIff(stamps + [now], now - window, now - other);
    forall c | c >= now - other
      ensures Prune(stamps + [now], c) == Prune(log + [now], c)
    {
      PruneAppend(stamps, [now], c);
      PruneAppend(log, [now], c);
    }
  }

  // ----- How often a threshold triggers -----------------------------------------------------------

  function After(stamps: seq<int>, times: seq<int>, window: int, packets: int): seq<int>
    decreases |times|
  {
    if times == [] then stamps else After(Hit(stamps, times[0], window, packets).0, times[1..], window, packets)
  }

  function Triggers(stamps: seq<int>, times: seq<int>, window: int, packets: int): nat
    decreases |times|
  {
    if times == [] then 0
    else
      var (stamps', fired) := Hit(stamps, times[0], window, packets);
      (if fired then 1 else 0) + Triggers(stamps', times[1..], window, packets)
  }

  // Fewer than `packets` timestamps are stored between calls, so a trigger uses exactly that many.
  lemma HitCount(stamps: seq<int>, now: int, window: int, packets: int)
    requires |stamps| < packets
    ensures var (stamps', fired) := Hit(stamps, now, window, packets);
      && |stamps'| < packets
      && |stamps'| + (if fired then packets else 0) <= |stamps| + 1
      && (fired ==> |Prune(stamps + [now], now - window)| == packets)
  {
    PruneShrinks(stamps + [now], now - window);
  }

  // The timestamps used up by triggers: exactly `packets` for each of them.
  function Consumed(stamps: seq<int>, times: seq<int>, window: int, packets: nat): nat
    decreases |times|
  {
    if times == [] then 0
    else
      var (stamps', fired) := Hit(stamps, times[0], window, packets);
      (if fired then packets else 0) + Consumed(stamps', times[1..], window, packets)
  }

  lemma {:induction false} ConsumedPerTrigger(stamps: seq<int>, times: seq<int>, window: int, packets: nat)
    ensures Consumed(stamps, times, window, packets) == packets * Triggers(stamps, times, window, packets)
    decreases |times|
  {
    hide Hit;
    if times == [] {
      assert packets * 0 == 0;
    } else {
      var stamps' := Hit(stamps, times[0], window, packets).0;
      ConsumedPerTrigger(stamps', times[1..], window, packets);
      TimesSuccessor(packets, Triggers(stamps', times[1..], window, packets));
    }
  }

  lemma TimesSuccessor(p: int, k: int)
    ensures p * (k + 1) == p * k + p && p * (1 + k) == p * k + p
  {
  }

  // No timestamp is counted twice: those consumed and those still stored never exceed those seen.
  lemma {:induction false} ConsumedAtMost(stamps: seq<int>, times: seq<int>, window: int, packets: nat)
    requires |stamps| < packets
    ensures var left := |After(stamps, times, window, packets)|;
      left < packets && Consumed(stamps, times, window, packets) + left <= |stamps| + |times|
    decreases |times|
  {
    hide Hit;
    if times == [] {
    } else {
      HitCount(stamps, times[0], window, packets);
      ConsumedAtMost(Hit(stamps, times[0], window, packets).0, times[1..], window, packets);
    }
  }

  // A hit while `kept` stored times are still inside the window keeps them, unless it triggers.
  lemma HitKeeps(stamps: seq<int>, now: int, window: int, packets: int, kept: nat, limit: int)
    requires kept <= |stamps| && limit < now && now - window <= limit
    requires forall i | |stamps| - kept <= i < |stamps| :: stamps[i] > limit
    ensures var (stamps', fired) := Hit(stamps, now, window, packets);
      !fired ==> kept + 1 <= |stamps'| && forall i | |stamps'| - (kept + 1) <= i < |stamps'| :: stamps'[i] > limit
  {
    var all := stamps + [now];
    var earlier, recent := all[..|all| - kept - 1], all[|all| - kept - 1..];
    assert all == earlier + recent;
    PruneAppend(earlier, recent, now - window);
    PruneKeepsAll(recent, now - window);
    hide Prune;
  }

  // Within one window no hit of the stretch is lost: each is consumed or still stored.
  lemma {:induction false} ConsumedAtLeast(stamps: seq<int>, times: seq<int>, window: int, packets: nat,
                                           kept: nat, limit: int)
    requires |stamps| < packets && kept <= |stamps|
    requires forall i | |stamps| - kept <= i < |stamps| :: stamps[i] > limit
    requires forall i | 0 <= i < |times| :: limit < times[i] && times[i] - window <= limit
    ensures kept + |times| < Consumed(stamps, times, window, packets) + packets
    decreases |times|
  {
    hide Hit;
    if times == [] {
    } else {
      var (stamps', fired) := Hit(stamps, times[0], window, packets);
      HitCount(stamps, times[0], window, packets);
      HitKeeps(stamps, times[0], window, packets, kept, limit);
      ConsumedAtLeast(stamps', times[1..], window, packets, if fired then 0 else kept + 1, limit);
    }
  }

  // Any n hits within less than one window trigger between floor(n/P) and floor((n+P-1)/P) times,
  // whatever was stored before them.
  lemma TriggerBounds(stamps: seq<int>, times: seq<int>, window: int, packets: nat)
    requires |stamps| < packets && times != []
    requires forall i | 0 <= i < |times| :: times[0] <= times[i] < times[0] + window
    ensures |times| / packets <= Triggers(stamps, times, window, packets) <= (|times| + packets - 1) / packets
  {
    ConsumedAtMost(stamps, times, window, packets);
    ConsumedAtLeast(stamps, times, window, packets, 0, times[0] - 1);
    ConsumedPerTrigger(stamps, times, window, packets);
    hide Consumed, Triggers;
    DivBounds(|times|, packets, Triggers(stamps, times, window, packets));
  }

  lemma DivBounds(n: nat, p: nat, k: nat)
    requires p > 0 && n < p * k + p && p * k <= n + p - 1
    ensures n / p <= k <= (n + p - 1) / p
  {
    DivFloor(n, p);
    DivFloor(n + p - 1, p);
    TimesSuccessor(p, k);
    TimesSuccessor(p, (n + p - 1) / p);
    TimesLess(p, n / p, k + 1);
    TimesLess(p, k, (n + p - 1) / p + 1);
  }

  lemma DivFloor(n: nat, p: nat)
    requires p > 0
    ensures p * (n / p) <= n < p * (n / p) + p
  {
  }

  lemma TimesLess(p: nat, a: int, b: int)
    requires p * a < p * b
    ensures a < b
  {
  }
}
