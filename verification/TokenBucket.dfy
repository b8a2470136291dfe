/** The per-source token bucket of the XDP filter, with its 64-bit wrap-around. */
module TokenBucket {
  import opened Word64

  datatype Bucket = Bucket(lastTime: u64, tokens: u64, rate: u64)

  // What xdp_block.c holds in new_tokens: the product wraps before the division.
  function NewTokens(b: Bucket, now: u64): nat {
    Wrap(Wrap(now - b.lastTime) * b.rate) / 1_000_000_000
  }

  predicate Refills(b: Bucket, now: u64) {
    Wrap(now - b.lastTime) > 0 && b.rate > 0 && NewTokens(b, now) > 0
  }

  function Refill(b: Bucket, now: u64): Bucket {
    if Refills(b, now) then
      var sum := Wrap(b.tokens + NewTokens(b, now));
      Bucket(now, if sum > b.rate then b.rate else sum, b.rate)
    else
      b
  }

  // One packet: refill, then spend a token if there is one.
  function Arrive(b: Bucket, now: u64): (Bucket, bool) {
    var b' := Refill(b, now);
    if b'.tokens >= 1 then (b'.(tokens := b'.tokens - 1), true) else (b', false)
  }

  ghost predicate Nondecreasing(ts: seq<u64>) {
    forall i, j | 0 <= i < j < |ts| :: ts[i] <= ts[j]
  }

  function After(b: Bucket, ts: seq<u64>): Bucket
    decreases |ts|
  {
    if ts == [] then b else After(Arrive(b, ts[0]).0, ts[1..])
  }

  function Verdicts(b: Bucket, ts: seq<u64>): seq<bool>
    decreases |ts|
  {
    if ts == [] then [] else [Arrive(b, ts[0]).1] + Verdicts(Arrive(b, ts[0]).0, ts[1..])
  }

  function CountTrue(vs: seq<bool>): nat {
    if vs == [] then 0 else (if vs[0] then 1 else 0) + CountTrue(vs[1..])
  }

  function Passed(b: Bucket, ts: seq<u64>): nat {
    CountTrue(Verdicts(b, ts))
  }

  lemma PassedUnfold(b: Bucket, ts: seq<u64>)
    requires ts != []
    ensures Passed(b, ts) == (if Arrive(b, ts[0]).1 then 1 else 0) + Passed(Arrive(b, ts[0]).0, ts[1..])
  {
  }

  lemma {:induction false} VerdictPerArrival(b: Bucket, ts: seq<u64>)
    ensures |Verdicts(b, ts)| == |ts|
    decreases |ts|
  {
    if ts == [] {
    } else {
      VerdictPerArrival(Arrive(b, ts[0]).0, ts[1..]);
    }
  }

  // ----- Credit in billionths of a token ---------------------------------------------------

  // The part of the wrapped product not yet turned into tokens at time t.
  function Residue(b: Bucket, t: u64): u64 {
    Wrap(Wrap(t - b.lastTime) * b.rate)
  }

  function Credit(b: Bucket, t: u64): nat {
    b.tokens * 1_000_000_000 + Residue(b, t)
  }

  // The largest credit a bucket of this size can hold: all its tokens and just under one more.
  function Capacity(size: u64): nat {
    size * 1_000_000_000 + 1_000_000_000 - 1
  }

  // The most tokens the bucket ever holds from now on: its rate, unless it was handed out fuller.
  function Burst(b: Bucket): u64 {
    if b.tokens > b.rate then b.tokens else b.rate
  }

  // Between two readings of a nondecreasing clock the residue grows by no more than rate per
  // nanosecond, although the difference and the product both wrap.
  lemma ResidueGrowsAtMost(b: Bucket, t: u64, t': u64)
    requires t <= t'
    ensures Residue(b, t') <= Residue(b, t) + b.rate * (t' - t)
  {
    ElapsedAdvances(b.lastTime, t, t');
    ProductGrowsAtMost(Wrap(t - b.lastTime), t' - t, b.rate);
  }

  lemma ElapsedAdvances(last: u64, t: u64, t': u64)
    requires t <= t'
    ensures Wrap(t' - last) == Wrap(Wrap(t - last) + (t' - t))
  {
  }

  lemma ProductGrowsAtMost(e: nat, d: nat, rate: nat)
    ensures Wrap(Wrap(e + d) * rate) <= Wrap(e * rate) + rate * d
  {
    WrapTimes(e + d, rate);
    var grown := rate * d;
    assert (e + d) * rate == e * rate + grown;
    WrapSumAtMost(e * rate, grown);
  }

  // Wrapping a factor before multiplying does not change the wrapped product.
  lemma WrapTimes(x: nat, rate: nat)
    ensures Wrap(Wrap(x) * rate) == Wrap(x * rate)
  {
    var turns := x / 0x1_0000_0000_0000_0000;
    assert x * rate == Wrap(x) * rate + (turns * rate) * 0x1_0000_0000_0000_0000;
    WrapShift(Wrap(x) * rate, turns * rate);
  }

  lemma ZeroFactor(x: int, y: int)
    requires x == 0 || y == 0
    ensures x * y == 0
  {
  }

  // The two guards of the source are implied by the third: a refill happens exactly when the
  // residue has reached one token.
  lemma RefillShape(b: Bucket, now: u64)
    ensures var product := Residue(b, now);
      && Refills(b, now) == (product >= 1_000_000_000)
      && NewTokens(b, now) == product / 1_000_000_000
      && Residue(Refill(b, now), now) == if product >= 1_000_000_000 then 0 else product
  {
  }

  // Refilling never creates credit, leaves less than one token of residue, and never overfills.
  lemma RefillCredit(b: Bucket, now: u64)
    ensures var b' := Refill(b, now);
      && b'.rate == b.rate && Burst(b') <= Burst(b)
      && Residue(b', now) < 1_000_000_000
      && Credit(b', now) <= Credit(b, now)
      && Credit(b', now) <= Capacity(Burst(b))
  {
    hide Residue, NewTokens, Refills;
    RefillShape(b, now);
  }

  lemma ArriveCredit(b: Bucket, now: u64)
    ensures var (b', passed) := Arrive(b, now);
      && b'.rate == b.rate && Burst(b') <= Burst(b)
      && Credit(b', now) + (if passed then 1_000_000_000 else 0) == Credit(Refill(b, now), now)
      && (passed <==> Credit(Refill(b, now), now) >= 1_000_000_000)
  {
    RefillCredit(b, now);
  }

  // ----- Domination by an exact fractional bucket -------------------------------------------

  // The reference: credit accrues continuously, nothing is truncated, nothing wraps.
  datatype Fluid = Fluid(level: nat, time: u64)

  function Accrued(rate: nat, d: nat): nat {
    rate * d
  }

  function FluidArrive(f: Fluid, rate: u64, size: u64, now: u64): (Fluid, bool)
    requires f.time <= now
  {
    var grown := f.level + Accrued(rate, now - f.time);
    var level := if grown > Capacity(size) then Capacity(size) else grown;
    if level >= 1_000_000_000 then (Fluid(level - 1_000_000_000, now), true) else (Fluid(level, now), false)
  }

  ghost predicate ClockFrom(t: u64, ts: seq<u64>) {
    Nondecreasing(ts) && (ts != [] ==> t <= ts[0])
  }

  ghost function FluidPassed(f: Fluid, rate: u64, size: u64, ts: seq<u64>): nat
    requires ClockFrom(f.time, ts)
    decreases |ts|
  {
    if ts == [] then 0
    else
      var (f', passed) := FluidArrive(f, rate, size, ts[0]);
      (if passed then 1 else 0) + FluidPassed(f', rate, size, ts[1..])
  }

  // One arrival, seen by both buckets. lead is how many more packets the reference has admitted.
  lemma LeadKept(b: Bucket, f: Fluid, size: u64, lead: nat, now: u64) returns (lead': nat)
    requires Burst(b) <= size && f.time <= now
    requires f.level >= Capacity(size) || Credit(b, f.time) <= f.level + lead * 1_000_000_000
    ensures var (b', passed) := Arrive(b, now); var (f', fluidPassed) := FluidArrive(f, b.rate, size, now);
      && lead' == lead + (if fluidPassed then 1 else 0) - (if passed then 1 else 0)
      && b'.rate == b.rate && Burst(b') <= size && f'.time == now
      && Credit(b', now) <= f'.level + lead' * 1_000_000_000
  {
    RefillCredit(b, now);
    ArriveCredit(b, now);
    ResidueGrowsAtMost(b, f.time, now);
    assert Capacity(Burst(b)) <= Capacity(size);
    hide Arrive, Refill, Residue, Credit, Capacity, Burst;
    var grown := Accrued(b.rate, now - f.time);
    lead' := LeadArithmetic(Credit(b, f.time), Credit(Refill(b, now), now), f.level, grown,
                            Capacity(size), lead, Arrive(b, now).1, FluidArrive(f, b.rate, size, now).1);
  }

  lemma LeadArithmetic(before: nat, credit: nat, level: nat, grown: nat, capacity: nat, lead: nat,
                       passed: bool, fluidPassed: bool) returns (lead': nat)
    requires credit <= capacity && credit <= before + grown
    requires level >= capacity || before <= level + lead * 1_000_000_000
    requires passed <==> credit >= 1_000_000_000
    requires fluidPassed <==> (if level + grown > capacity then capacity else level + grown) >= 1_000_000_000
    ensures lead' == lead + (if fluidPassed then 1 else 0) - (if passed then 1 else 0)
    ensures credit - (if passed then 1_000_000_000 else 0)
         <= (if level + grown > capacity then capacity else level + grown)
            - (if fluidPassed then 1_000_000_000 else 0) + lead' * 1_000_000_000
  {
    var reached := if level + grown > capacity then capacity else level + grown;
    assert credit <= reached + lead * 1_000_000_000;
    if passed && !fluidPassed {
      assert lead >= 1;
      lead' := lead - 1;
    } else if !passed && fluidPassed {
      lead' := lead + 1;
    } else {
      lead' := lead;
    }
  }

  lemma {:induction false} DominatedFrom(b: Bucket, f: Fluid, size: u64, lead: nat, ts: seq<u64>)
    requires Burst(b) <= size && ClockFrom(f.time, ts)
    requires f.level >= Capacity(size) || Credit(b, f.time) <= f.level + lead * 1_000_000_000
    ensures Passed(b, ts) <= FluidPassed(f, b.rate, size, ts) + lead
    decreases |ts|
  {
    if ts == [] {
    } else {
      var lead' := LeadKept(b, f, size, lead, ts[0]);
      PassedUnfold(b, ts);
      DominatedFrom(Arrive(b, ts[0]).0, FluidArrive(f, b.rate, size, ts[0]).0, size, lead', ts[1..]);
    }
  }

  // Whatever lastTime holds and however often the product wraps, the code admits no more than
  // an exact bucket that starts full. Every prefix of ts is itself such a sequence.
  lemma NeverMoreThanFluid(b: Bucket, ts: seq<u64>)
    requires Nondecreasing(ts) && ts != []
    ensures Passed(b, ts) <= FluidPassed(Fluid(Capacity(Burst(b)), ts[0]), b.rate, Burst(b), ts)
  {
    DominatedFrom(b, Fluid(Capacity(Burst(b)), ts[0]), Burst(b), 0, ts);
  }

  // ----- How much any stretch of traffic may pass -------------------------------------------

  lemma {:induction false} PassedSpendsCredit(b: Bucket, t: u64, ts: seq<u64>)
    requires ClockFrom(t, ts) && ts != []
    ensures Passed(b, ts) * 1_000_000_000 <= Credit(b, t) + b.rate * (ts[|ts| - 1] - t)
    decreases |ts|
  {
    var now, last := ts[0], ts[|ts| - 1];
    CreditSpent(b, t, now);
    PassedUnfold(b, ts);
    var grown, later := b.rate * (now - t), b.rate * (last - now);
    Distribute(b.rate, now - t, last - now);
    assert Passed(b, ts) * 1_000_000_000 <= Credit(b, t) + grown + later by {
      hide Arrive, Credit;
      if |ts| == 1 {
        assert ts[1..] == [];
        ZeroFactor(b.rate, last - now);
      } else {
        PassedSpendsCredit(Arrive(b, now).0, now, ts[1..]);
        assert ts[1..][|ts[1..]| - 1] == last;
      }
    }
  }

  lemma CreditSpent(b: Bucket, t: u64, now: u64)
    requires t <= now
    ensures var (b', passed) := Arrive(b, now);
      && b'.rate == b.rate
      && Credit(b', now) + (if passed then 1_000_000_000 else 0) <= Credit(b, t) + b.rate * (now - t)
  {
    hide Arrive, Refill, Residue;
    ResidueGrowsAtMost(b, t, now);
    RefillCredit(b, now);
    ArriveCredit(b, now);
  }

  lemma Distribute(r: nat, x: int, y: int)
    ensures r * x + r * y == r * (x + y)
  {
  }

  // At most burst + floor((rate * span + 10^9 - 1) / 10^9) packets pass in any stretch; burst is the
  // rate itself when the bucket starts with no more tokens than that.
  lemma WindowBound(b: Bucket, ts: seq<u64>)
    requires Nondecreasing(ts) && ts != []
    ensures Passed(b, ts) <= Burst(b) + (b.rate * (ts[|ts| - 1] - ts[0]) + 1_000_000_000 - 1) / 1_000_000_000
  {
    // Start from the bucket as the first refill leaves it.
    var now := ts[0];
    var full := Refill(b, now);
    RefillCredit(b, now);
    RefillTwice(b, now);
    PassedUnfold(b, ts);
    PassedUnfold(full, ts);
    PassedSpendsCredit(full, now, ts);
  }

  lemma RefillTwice(b: Bucket, now: u64)
    ensures Refill(Refill(b, now), now) == Refill(b, now)
  {
  }

  // The 10^9 - 1 in the bound is needed: two packets one nanosecond apart pass a bucket of one
  // token per second, because almost a whole token was waiting to accrue.
  lemma WindowBoundAttained()
    ensures var b, ts: seq<u64> := Bucket(0, 1, 1), [999_999_999, 1_000_000_000];
      && Passed(b, ts) == 2 == Burst(b) + (b.rate * (ts[1] - ts[0]) + 1_000_000_000 - 1) / 1_000_000_000
      && Burst(b) + b.rate * (ts[1] - ts[0]) / 1_000_000_000 == 1
  {
    var b: Bucket, ts: seq<u64> := Bucket(0, 1, 1), [999_999_999, 1_000_000_000];
    assert Arrive(b, ts[0]) == (Bucket(0, 0, 1), true);
    assert Arrive(Bucket(0, 0, 1), ts[1]) == (Bucket(1_000_000_000, 0, 1), true);
    assert ts[1..] == [1_000_000_000] && ts[1..][1..] == [];
    PassedUnfold(b, ts);
    PassedUnfold(Bucket(0, 0, 1), ts[1..]);
  }

  lemma {:induction false} AfterKeepsBurst(b: Bucket, ts: seq<u64>)
    ensures After(b, ts).rate == b.rate && Burst(After(b, ts)) <= Burst(b)
    decreases |ts|
  {
    hide Arrive, Burst;
    if ts == [] {
    } else {
      ArriveCredit(b, ts[0]);
      AfterKeepsBurst(Arrive(b, ts[0]).0, ts[1..]);
    }
  }

  // ----- How little credit truncation loses --------------------------------------------------

  // No arrival of ts precedes lastTime or makes the product overflow the word.
  ghost predicate NoWrap(b: Bucket, ts: seq<u64>)
    decreases |ts|
  {
    ts == [] ||
    (&& b.lastTime <= ts[0] && (ts[0] - b.lastTime) * b.rate < 0x1_0000_0000_0000_0000
     && NoWrap(Arrive(b, ts[0]).0, ts[1..]))
  }

  // Tokens credited before the cap is applied.
  function CreditedAt(b: Bucket, now: u64): nat {
    if Refills(b, now) then NewTokens(b, now) else 0
  }

  function Credited(b: Bucket, ts: seq<u64>): nat
    decreases |ts|
  {
    if ts == [] then 0
    else CreditedAt(b, ts[0]) + Credited(Arrive(b, ts[0]).0, ts[1..])
  }

  lemma ResidueWithoutWrap(b: Bucket, now: u64)
    requires b.lastTime <= now && (now - b.lastTime) * b.rate < 0x1_0000_0000_0000_0000
    ensures Residue(b, now) == b.rate * (now - b.lastTime)
  {
    var d := now - b.lastTime;
    var product := Accrued(b.rate, d);
    assert d * b.rate == product;
    assert Wrap(d) == d && Wrap(product) == product;
  }

  lemma CreditOfOneArrival(b: Bucket, now: u64)
    requires b.lastTime <= now && (now - b.lastTime) * b.rate < 0x1_0000_0000_0000_0000
    ensures var n, earned := CreditedAt(b, now), b.rate * (Arrive(b, now).0.lastTime - b.lastTime);
      && n * 1_000_000_000 <= earned
      && (if n > 0 then earned < 2 * n * 1_000_000_000 else earned == 0)
  {
    hide Residue, NewTokens, Refills, Wrap;
    RefillShape(b, now);
    ResidueWithoutWrap(b, now);
    if !Refills(b, now) {
      ZeroFactor(b.rate, b.lastTime - b.lastTime);
    }
  }

  // The credited tokens account for the elapsed time between half and all of it, and for
  // exactly none of it when no token was credited.
  lemma {:induction false} CreditConserved(b: Bucket, ts: seq<u64>)
    requires NoWrap(b, ts)
    ensures var n, earned := Credited(b, ts), b.rate * (After(b, ts).lastTime - b.lastTime);
      && n * 1_000_000_000 <= earned
      && (if n > 0 then earned < 2 * n * 1_000_000_000 else earned == 0)
    decreases |ts|
  {
    if ts == [] {
      assert b.rate * 0 == 0;
    } else {
      var b' := Arrive(b, ts[0]).0;
      CreditOfOneArrival(b, ts[0]);
      CreditConserved(b', ts[1..]);
      Distribute(b.rate, b'.lastTime - b.lastTime, After(b, ts).lastTime - b'.lastTime);
    }
  }

  // ----- What one instant admits ------------------------------------------------------------------

  function Min(x: int, y: int): int {
    if x < y then x else y
  }

  // The tokens there are to spend when the product of elapsed time and rate is this one.
  function Spendable(b: Bucket, product: nat): nat {
    if product < 1_000_000_000 then b.tokens
    else Min(b.rate, (b.tokens + product / 1_000_000_000) % 0x1_0000_0000_0000_0000)
  }

  // The same at time now, written out from the three fields.
  function OnHand(b: Bucket, now: u64): nat {
    Spendable(b, (((now - b.lastTime) % 0x1_0000_0000_0000_0000) * b.rate) % 0x1_0000_0000_0000_0000)
  }

  lemma OnHandOfResidue(b: Bucket, now: u64)
    ensures OnHand(b, now) == Spendable(b, Residue(b, now))
  {
  }

  lemma ResidueIgnoresTokens(b: Bucket, tokens: u64, now: u64)
    ensures Residue(b.(tokens := tokens), now) == Residue(b, now)
  {
  }

  lemma ArriveSpends(b: Bucket, now: u64)
    ensures var (b', passed) := Arrive(b, now); var n := OnHand(b, now);
      && (passed <==> n >= 1)
      && b' == Bucket(if Residue(b, now) >= 1_000_000_000 then now else b.lastTime, if passed then n - 1 else 0, b.rate)
      && OnHand(b', now) == b'.tokens
      && (Residue(b, now) < 1_000_000_000 ==> Residue(b', now) == Residue(b, now))
  {
    hide Residue, NewTokens, Refills, OnHand;
    var full, b' := Refill(b, now), Arrive(b, now).0;
    RefillShape(b, now);
    OnHandOfResidue(b, now);
    ResidueIgnoresTokens(full, b'.tokens, now);
    assert b' == full.(tokens := b'.tokens);
    OnHandOfResidue(b', now);
  }

  // Any number of packets at one instant: as many pass as there are tokens, and the rest are dropped.
  // The bucket is left with what remains, and its time is now exactly when the product was a token's worth.
  lemma {:induction false} InstantExact(b: Bucket, ts: seq<u64>, now: u64)
    requires forall i | 0 <= i < |ts| :: ts[i] == now
    ensures Passed(b, ts) == Min(|ts|, OnHand(b, now))
    ensures ts != [] ==> After(b, ts) == Bucket(if Residue(b, now) >= 1_000_000_000 then now else b.lastTime,
                                                OnHand(b, now) - Passed(b, ts), b.rate)
    decreases |ts|
  {
    hide Arrive, OnHand, Residue;
    if ts == [] {
    } else {
      var b' := Arrive(b, now).0;
      ArriveSpends(b, now);
      ArriveSpends(b', now);
      PassedUnfold(b, ts);
      InstantExact(b', ts[1..], now);
    }
  }

  // Without overflow: what was stored and what accrued since, up to the rate.
  lemma InstantWithoutWrap(b: Bucket, ts: seq<u64>, now: u64)
    requires b.lastTime <= now && (now - b.lastTime) * b.rate < 0x1_0000_0000_0000_0000
    requires b.tokens <= b.rate < 0x1_0000_0000_0000_0000 - 0x1_0000_0000_0000_0000 / 1_000_000_000
    requires forall i | 0 <= i < |ts| :: ts[i] == now
    ensures Passed(b, ts) == Min(|ts|, Min(b.rate, b.tokens + b.rate * (now - b.lastTime) / 1_000_000_000))
  {
    hide Passed, OnHand, Min;
    InstantExact(b, ts, now);
    ProductWithoutWrap(b.lastTime, now, b.rate);
    OnHandWithoutWrap(b, now, b.rate * (now - b.lastTime));
  }

  lemma ProductWithoutWrap(last: u64, now: u64, rate: u64)
    requires last <= now && (now - last) * rate < 0x1_0000_0000_0000_0000
    ensures (((now - last) % 0x1_0000_0000_0000_0000) * rate) % 0x1_0000_0000_0000_0000 == rate * (now - last)
  {
    var d: nat := now - last;
    assert d % 0x1_0000_0000_0000_0000 == d;
    Commute(d, rate);
  }

  lemma Commute(x: nat, y: nat)
    ensures x * y == y * x
  {
  }

  lemma OnHandWithoutWrap(b: Bucket, now: u64, product: nat)
    requires product == (((now - b.lastTime) % 0x1_0000_0000_0000_0000) * b.rate) % 0x1_0000_0000_0000_0000
    requires b.tokens <= b.rate < 0x1_0000_0000_0000_0000 - 0x1_0000_0000_0000_0000 / 1_000_000_000
    ensures OnHand(b, now) == Min(b.rate, b.tokens + product / 1_000_000_000)
  {
    assert OnHand(b, now) == Spendable(b, product);
    SpendableWithoutWrap(b, product);
  }

  lemma SpendableWithoutWrap(b: Bucket, product: nat)
    requires product < 0x1_0000_0000_0000_0000
    requires b.tokens <= b.rate < 0x1_0000_0000_0000_0000 - 0x1_0000_0000_0000_0000 / 1_000_000_000
    ensures Spendable(b, product) == Min(b.rate, b.tokens + product / 1_000_000_000)
  {
  }

  // So a source that has been quiet for a second may send a whole second's worth at once.
  lemma QuietSecondAdmitsRate(b: Bucket, ts: seq<u64>, now: u64)
    requires b.lastTime + 1_000_000_000 <= now && (now - b.lastTime) * b.rate < 0x1_0000_0000_0000_0000
    requires b.tokens <= b.rate < 0x1_0000_0000_0000_0000 - 0x1_0000_0000_0000_0000 / 1_000_000_000
    requires |ts| <= b.rate && forall i | 0 <= i < |ts| :: ts[i] == now
    ensures Passed(b, ts) == |ts|
  {
    InstantWithoutWrap(b, ts, now);
    hide Passed;
    AccruedInASecond(b.rate, now - b.lastTime);
  }

  lemma AccruedInASecond(rate: nat, elapsed: nat)
    requires elapsed >= 1_000_000_000
    ensures rate * elapsed / 1_000_000_000 >= rate
  {
    var extra := rate * (elapsed - 1_000_000_000);
    assert rate * elapsed == rate * 1_000_000_000 + extra;
  }

  // ----- When packets are dropped ---------------------------------------------------------------

  // Exactly when one packet passes, both overflows included: with a refill due, the wrapped sum of
  // old and new tokens decides, and without one the stored tokens do.
  lemma PassesIff(b: Bucket, now: u64)
    ensures Arrive(b, now).1
            <==> if Residue(b, now) >= 1_000_000_000 then Wrap(b.tokens + Residue(b, now) / 1_000_000_000) >= 1
                 else b.tokens >= 1
  {
  }

  // At some arrival the refill leaves nothing to spend.
  ghost predicate Starves(b: Bucket, ts: seq<u64>)
    decreases |ts|
  {
    ts != [] &&
    ((if Residue(b, ts[0]) >= 1_000_000_000 then Wrap(b.tokens + Residue(b, ts[0]) / 1_000_000_000) == 0
      else b.tokens == 0)
     || Starves(Arrive(b, ts[0]).0, ts[1..]))
  }

  lemma {:induction false} PassedAtMostAll(b: Bucket, ts: seq<u64>)
    ensures Passed(b, ts) <= |ts|
    decreases |ts|
  {
    if ts == [] {
    } else {
      PassedUnfold(b, ts);
      PassedAtMostAll(Arrive(b, ts[0]).0, ts[1..]);
    }
  }

  // PassesIff along a whole run, for every bucket and any clock.
  lemma {:induction false} AllPassIff(b: Bucket, ts: seq<u64>)
    ensures Passed(b, ts) == |ts| <==> !Starves(b, ts)
    decreases |ts|
  {
    if ts == [] {
    } else {
      PassesIff(b, ts[0]);
      PassedUnfold(b, ts);
      hide Arrive, Residue, Passed, Wrap;
      PassedAtMostAll(Arrive(b, ts[0]).0, ts[1..]);
      AllPassIff(Arrive(b, ts[0]).0, ts[1..]);
    }
  }

  // Each arrival is at least one token's worth of time after the previous one (the first after
  // the stored time), and no gap is so long that the product overflows.
  ghost predicate Spaced(last: u64, rate: u64, ts: seq<u64>)
    decreases |ts|
  {
    ts == [] ||
    (last <= ts[0] && 1_000_000_000 <= (ts[0] - last) * rate < 0x1_0000_0000_0000_0000 && Spaced(ts[0], rate, ts[1..]))
  }

  // At some arrival the stored and the new tokens add up to exactly 2^64, which the word reads as none.
  ghost predicate SumVanishes(b: Bucket, ts: seq<u64>)
    decreases |ts|
  {
    ts != [] &&
    (b.tokens + NewTokens(b, ts[0]) == 0x1_0000_0000_0000_0000 || SumVanishes(Arrive(b, ts[0]).0, ts[1..]))
  }

  lemma SpacedArrival(b: Bucket, now: u64)
    requires b.lastTime <= now && 1_000_000_000 <= (now - b.lastTime) * b.rate < 0x1_0000_0000_0000_0000
    ensures var (b', passed) := Arrive(b, now);
      && b'.lastTime == now && b'.rate == b.rate && b'.tokens <= b.rate
      && (passed <==> b.tokens + NewTokens(b, now) != 0x1_0000_0000_0000_0000)
  {
    hide Residue, NewTokens, Refills;
    RefillShape(b, now);
    ResidueWithoutWrap(b, now);
  }

  // A spaced source loses no packet if and only if no sum vanishes on the way.
  lemma {:induction false} SpacedNeverDroppedIff(b: Bucket, ts: seq<u64>)
    requires Spaced(b.lastTime, b.rate, ts)
    ensures Passed(b, ts) == |ts| <==> !SumVanishes(b, ts)
    decreases |ts|
  {
    if ts == [] {
    } else {
      SpacedArrival(b, ts[0]);
      PassedUnfold(b, ts);
      hide Arrive, Refill, Wrap, NewTokens, Passed;
      PassedAtMostAll(Arrive(b, ts[0]).0, ts[1..]);
      SpacedNeverDroppedIff(Arrive(b, ts[0]).0, ts[1..]);
    }
  }

  // That never happens to a bucket whose stored tokens and rate are below 2^64 - 2^64 / 10^9.
  lemma {:induction false} SumNeverVanishes(b: Bucket, ts: seq<u64>)
    requires Burst(b) < 0x1_0000_0000_0000_0000 - 0x1_0000_0000_0000_0000 / 1_000_000_000
    ensures !SumVanishes(b, ts)
    decreases |ts|
  {
    if ts == [] {
    } else {
      ArriveCredit(b, ts[0]);
      assert NewTokens(b, ts[0]) <= 0x1_0000_0000_0000_0000 / 1_000_000_000;
      hide Arrive, NewTokens;
      SumNeverVanishes(Arrive(b, ts[0]).0, ts[1..]);
    }
  }

  lemma SpacedNeverDropped(b: Bucket, ts: seq<u64>)
    requires Burst(b) < 0x1_0000_0000_0000_0000 - 0x1_0000_0000_0000_0000 / 1_000_000_000
    requires Spaced(b.lastTime, b.rate, ts)
    ensures Passed(b, ts) == |ts|
  {
    SumNeverVanishes(b, ts);
    SpacedNeverDroppedIff(b, ts);
  }

  // The no-overflow hypothesis of Spaced cannot be dropped: at 2^31 packets per
  // second, a source that stayed silent for 2^33 ns (8.6 s) finds its product wrapped to zero.
  lemma LongSilenceStarves()
    ensures var b := Bucket(0, 0, 0x8000_0000);
      && (0x2_0000_0000 - b.lastTime) * b.rate >= 1_000_000_000
      && !Arrive(b, 0x2_0000_0000).1
  {
  }
}
