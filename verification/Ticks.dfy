/** The tick counter of arch_os.c: a 32-bit count that wraps, extended by 16 bits that are counted
    up whenever a sample in the lower half follows one in the upper half. */
module Ticks {
  import UpLink

  const LOW := 0x1_0000_0000
  const HIGH := 0x1_0000
  const HALF := 0x8000_0000

  datatype Clock = Clock(high: nat, half: bool)

  /** One sample of the counter. */
  function Sample(c: Clock, tick: nat): Clock {
    if tick >= HALF then c.(half := true)
    else if c.half then Clock((c.high + 1) % HIGH, false)
    else c
  }

  class TickCounter {
    var tickHigh: nat
    var tickHalfFlag: bool

    constructor ()
      ensures Clock(tickHigh, tickHalfFlag) == Clock(0, false)
    {
      tickHigh, tickHalfFlag := 0, false;
    }

    /** arch_os_tick_now. */
    method Now(tick: nat) returns (r: nat)
      requires tick < LOW
      modifies this
      ensures r == tick && Clock(tickHigh, tickHalfFlag) == Sample(old(Clock(tickHigh, tickHalfFlag)), tick)
    {
      if tick > 0x7FFF_FFFF {
        tickHalfFlag := true;
      } else if tickHalfFlag {
        tickHalfFlag := false;
        tickHigh := (tickHigh + 1) % HIGH;
      }
      return tick;
    }

    /** arch_os_tick_elapsed. */
    method Elapsed(last: nat, tick: nat) returns (r: int)
      requires last < LOW && tick < LOW
      modifies this
      ensures r == (tick - last) % LOW
      ensures Clock(tickHigh, tickHalfFlag) == Sample(old(Clock(tickHigh, tickHalfFlag)), tick)
    {
      var now := Now(tick);
      AgeIsDifference(last, now);
      if last < now {
        r := now - last;
      } else {
        r := (LOW - 1 - last + now + 1) % LOW;
      }
    }
  }

  lemma AgeIsDifference(last: nat, now: nat)
    requires last < LOW && now < LOW
    ensures UpLink.Elapsed(last, now) == (now - last) % LOW
  {
    if last < now {
      ModAt(now - last, 0, now - last);
    } else if last == now {
      ModAt(LOW, 1, 0);
    } else {
      ModAt(now - last, -1, LOW + now - last);
      ModAt(LOW + now - last, 0, LOW + now - last);
    }
  }

  lemma ModAt(n: int, q: int, r: nat)
    requires r < LOW && n == q * LOW + r
    ensures n % LOW == r && n / LOW == q
  {
  }

  /** Samples of the true count, each at most half the range after the one before. */
  predicate Close(samples: seq<nat>) {
    && (|samples| > 0 ==> samples[0] <= HALF)
    && forall i :: 0 < i < |samples| ==> samples[i - 1] <= samples[i] <= samples[i - 1] + HALF
  }

  function Run(samples: seq<nat>): Clock {
    if samples == [] then Clock(0, false)
    else Sample(Run(samples[..|samples| - 1]), samples[|samples| - 1] % LOW)
  }

  /** The clock shows the upper bits of the true count, modulo 2^16, and its half. */
  predicate Shows(c: Clock, count: nat) {
    c.high == count / LOW % HIGH && c.half == (count % LOW >= HALF)
  }

  lemma HighGrows(high: nat)
    ensures (high % HIGH + 1) % HIGH == (high + 1) % HIGH
  {
  }

  lemma OneSample(c: Clock, was: nat, now: nat)
    requires Shows(c, was) && was <= now <= was + HALF
    ensures Shows(Sample(c, now % LOW), now)
  {
    var q, r := was / LOW, was % LOW;
    assert was == q * LOW + r;
    var s := r + (now - was);
    if s < LOW {
      ModAt(now, q, s);
    } else {
      ModAt(now, q + 1, s - LOW);
      HighGrows(q);
    }
  }

  /** Over any run of samples at most 2^31 apart, the extended count (high, tick) is the true one
      modulo 2^48. */
  lemma {:induction false} ExtendedCount(samples: seq<nat>)
    requires Close(samples) && samples != []
    ensures var now := samples[|samples| - 1];
      && Shows(Run(samples), now)
      && Run(samples).high * LOW + now % LOW == now % (HIGH * LOW)
    decreases |samples|
  {
    hide Sample, Shows;
    var n := |samples| - 1;
    var now := samples[n];
    assert Run(samples) == Sample(Run(samples[..n]), now % LOW);
    if n == 0 {
      FromZero(now);
      assert Run(samples[..0]) == Clock(0, false);
    } else {
      ExtendedCount(samples[..n]);
      OneSample(Run(samples[..n]), samples[n - 1], now);
    }
    ShownCount(Run(samples), now);
  }

  lemma FromZero(now: nat)
    requires now <= HALF
    ensures Shows(Sample(Clock(0, false), now % LOW), now)
  {
    OneSample(Clock(0, false), 0, now);
  }

  lemma ShownCount(c: Clock, now: nat)
    requires Shows(c, now)
    ensures c.high * LOW + now % LOW == now % (HIGH * LOW)
  {
    var q, r := now / LOW, now % LOW;
    var p, h := q / HIGH, q % HIGH;
    assert now == q * LOW + r && q == p * HIGH + h;
    assert now == p * (HIGH * LOW) + (h * LOW + r);
    ModWide(now, p, h * LOW + r);
  }

  lemma ModWide(n: nat, q: nat, r: nat)
    requires r < HIGH * LOW && n == q * (HIGH * LOW) + r
    ensures n % (HIGH * LOW) == r
  {
  }

  // ----- exactly when the extended count is right -----

  /** The wraps from one sample to the next, as far as 16 bits can tell, are those the half flag shows:
      one if the count comes from the upper half and is in the lower, otherwise none. */
  predicate Noticed(was: nat, now: nat) {
    (now / LOW - was / LOW) % HIGH == if was % LOW >= HALF && now % LOW < HALF then 1 else 0
  }

  lemma ExactSample(c: Clock, was: nat, now: nat)
    requires Shows(c, was)
    ensures Shows(Sample(c, now % LOW), now) <==> Noticed(was, now)
  {
    HighDiffers(was / LOW, now / LOW, 0);
    HighDiffers(was / LOW, now / LOW, 1);
    HighGrows(was / LOW);
  }

  lemma HighDiffers(a: nat, b: nat, k: nat)
    requires k < 2
    ensures (a + k) % HIGH == b % HIGH <==> (b - a) % HIGH == k
  {
    var q, r := a / HIGH, a % HIGH;
    var p, s := b / HIGH, b % HIGH;
    var d := (b - a) / HIGH;
    assert b - a == (p - q) * HIGH + (s - r);
    if s >= r {
      ModHigh(b - a, p - q, s - r);
    } else {
      ModHigh(b - a, p - q - 1, s - r + HIGH);
    }
    if r + k < HIGH {
      ModHigh(a + k, q, r + k);
    } else {
      ModHigh(a + k, q + 1, 0);
    }
  }

  lemma ModHigh(n: int, q: int, r: nat)
    requires r < HIGH && n == q * HIGH + r
    ensures n % HIGH == r
  {
  }

  function Before(samples: seq<nat>, i: nat): nat
    requires i < |samples|
  {
    if i == 0 then 0 else samples[i - 1]
  }

  ghost predicate AllNoticed(samples: seq<nat>) {
    forall i :: 0 <= i < |samples| ==> Noticed(Before(samples, i), samples[i])
  }

  /** The extended count is right at the i-th sample. */
  predicate ShownAt(samples: seq<nat>, i: nat)
    requires i < |samples|
  {
    Shows(Run(samples[..i + 1]), samples[i])
  }

  ghost predicate AlwaysShown(samples: seq<nat>) {
    forall i :: 0 <= i < |samples| ==> ShownAt(samples, i)
  }

  lemma ShownEarlier(samples: seq<nat>, n: nat, i: nat)
    requires i < n <= |samples|
    ensures ShownAt(samples[..n], i) == ShownAt(samples, i)
  {
    hide Run, Shows;
    assert samples[..n][..i + 1] == samples[..i + 1];
  }

  lemma ShownLess(samples: seq<nat>)
    requires samples != []
    ensures var n := |samples| - 1;
      AlwaysShown(samples) <==> AlwaysShown(samples[..n]) && ShownAt(samples, n)
  {
    hide ShownAt;
    var n := |samples| - 1;
    forall i: nat | i < n
      ensures ShownAt(samples[..n], i) == ShownAt(samples, i)
    {
      ShownEarlier(samples, n, i);
    }
    if AlwaysShown(samples[..n]) && ShownAt(samples, n) {
      forall i: nat | i < |samples|
        ensures ShownAt(samples, i)
      {
        assert i < n ==> ShownAt(samples[..n], i);
      }
    }
  }

  lemma NoticedLess(samples: seq<nat>)
    requires samples != []
    ensures var n := |samples| - 1;
      AllNoticed(samples) <==> AllNoticed(samples[..n]) && Noticed(Before(samples, n), samples[n])
  {
    hide Noticed;
    var n := |samples| - 1;
    var less := samples[..n];
    assert forall i :: 0 <= i < n ==> Before(less, i) == Before(samples, i) && less[i] == samples[i];
    assert AllNoticed(less) <==> forall i :: 0 <= i < n ==> Noticed(Before(samples, i), samples[i]);
  }

  /** Over any run of samples, however far apart: the extended count is right at every one of them if
      and only if the half flag noticed every wrap. */
  lemma {:induction false} ShownExactly(samples: seq<nat>)
    ensures AlwaysShown(samples) <==> AllNoticed(samples)
    decreases |samples|
  {
    hide Sample, Shows, Noticed, AlwaysShown, AllNoticed, ShownAt;
    if samples == [] {
      assert AlwaysShown([]) && AllNoticed([]) by { NoSamples(); }
    } else {
      var n := |samples| - 1;
      var less, now := samples[..n], samples[n];
      ShownExactly(less);
      ShownLess(samples);
      NoticedLess(samples);
      if AlwaysShown(less) {
        LastShown(less);
        ExactSample(Run(less), Before(samples, n), now);
        LastIs(samples);
      }
    }
  }

  lemma NoSamples()
    ensures AlwaysShown([]) && AllNoticed([])
  {
  }

  lemma LastShown(samples: seq<nat>)
    requires AlwaysShown(samples)
    ensures Shows(Run(samples), if samples == [] then 0 else samples[|samples| - 1])
  {
    hide Run, Shows;
    if samples == [] {
      ShownAtStart();
    } else {
      var n := |samples| - 1;
      assert ShownAt(samples, n);
      assert samples[..n + 1] == samples;
    }
  }

  lemma LastIs(samples: seq<nat>)
    requires samples != []
    ensures var n := |samples| - 1;
      ShownAt(samples, n) == Shows(Sample(Run(samples[..n]), samples[n] % LOW), samples[n])
  {
    hide Shows, Sample;
    assert samples[..|samples| - 1 + 1] == samples;
  }

  lemma ShownAtStart()
    ensures Shows(Run([]), 0)
  {
  }

  /** One tick more between two samples, and a wrap can go unseen. */
  lemma HalfIsTight()
    ensures var samples := [HALF - 1, HALF - 1 + HALF + 1];
      !Shows(Run(samples), samples[1])
  {
    var samples := [HALF - 1, LOW];
    var first := [HALF - 1];
    assert samples[..1] == first && first[..0] == [];
    assert Run(first) == Sample(Run([]), HALF - 1);
    assert Run(samples) == Sample(Run(first), 0);
  }
}
