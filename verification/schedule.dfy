/**
 How the tick handler spreads the servo's remainder over the ticks: tick
 number `t` runs one cycle longer when `t % g_tickNs < g_ulSystemTickHigh`,
 so the pattern repeats every `g_tickNs` ticks (25 at 40 MHz) and every
 window of that many consecutive ticks holds exactly `high` longer ones.
 */
module Schedule {
  import opened Word
  import opened Clock
  import opened Servo

  /** The number of tick counts among `t0 .. t0 + n - 1` whose residue
      modulo `tickNs` is below `high`, i.e. that run one cycle longer. */
  function LongTicks(t0: int, n: nat, high: U32, tickNs: U32): nat
    requires tickNs > 0
  {
    if n == 0 then 0
    else LongTicks(t0, n - 1, high, tickNs) + (if (t0 + n - 1) % tickNs < high then 1 else 0)
  }

  function Min(a: int, b: int): int
  {
    if a <= b then a else b
  }

  /** Counting from the front instead of the back. */
  lemma {:induction false} LongTicksFront(t0: int, n: nat, high: U32, tickNs: U32)
    requires tickNs > 0
    ensures LongTicks(t0, n + 1, high, tickNs)
            == (if t0 % tickNs < high then 1 else 0) + LongTicks(t0 + 1, n, high, tickNs)
  {
    if n > 0 {
      LongTicksFront(t0, n - 1, high, tickNs);
    }
  }

  /** The first `k` tick counts of a window are their own residues. */
  lemma {:induction false} LongTicksPrefix(k: nat, high: U32, tickNs: U32)
    requires 0 < tickNs && k <= tickNs
    ensures LongTicks(0, k, high, tickNs) == Min(k, high)
  {
    if k > 0 {
      LongTicksPrefix(k - 1, high, tickNs);
      ModSmall(k - 1, tickNs);
    }
  }

  /** Every window of `tickNs` consecutive tick counts holds exactly
      `high` long ticks (all of them when `high >= tickNs`). */
  lemma {:induction false} LongTicksWindow(t0: nat, high: U32, tickNs: U32)
    requires tickNs > 0
    ensures LongTicks(t0, tickNs, high, tickNs) == Min(tickNs, high)
  {
    if t0 == 0 {
      LongTicksPrefix(tickNs, high, tickNs);
    } else {
      LongTicksWindow(t0 - 1, high, tickNs);
      LongTicksFront(t0 - 1, tickNs, high, tickNs);
      ModShift(t0 - 1, tickNs);
    }
  }

  /** The sum of a sequence of periods. */
  function Sum(xs: seq<int>): int
  {
    if |xs| == 0 then 0 else Sum(xs[..|xs| - 1]) + xs[|xs| - 1]
  }

  /** `n` successive SysTick interrupts with no other operation in between.
      They keep the published schedule, make it active, and count the ticks
      modulo 2^32, as the 32-bit tick counter does. */
  function Run(s: State, n: nat, tickNs: U32): (r: State)
    requires tickNs > 0
    ensures r.newReload == s.newReload && r.high == s.high
    ensures r.ticks == Wrap(s.ticks + n)
    ensures n > 0 ==> r.reload == s.newReload
  {
    if n == 0 then s
    else
      var p := Run(s, n - 1, tickNs);
      WrapAdd(s.ticks + (n - 1), 1);
      Tick(p, tickNs)
  }

  /** `setTime` does not validate its argument, but four ticks bring any
      nanosecond count back below one second. */
  lemma RunRenormalises(s: State, tickNs: U32)
    requires tickNs > 0
    ensures Normal(Run(s, 4, tickNs).time)
  {
    var s1 := Run(s, 1, tickNs);
    var s2 := Run(s, 2, tickNs);
    var s3 := Run(s, 3, tickNs);
    assert Run(s, 4, tickNs) == Tick(s3, tickNs);
    assert s3 == Tick(s2, tickNs);
    assert s2 == Tick(s1, tickNs);
  }

  /** The SysTick periods programmed by `n` successive interrupts, in order:
      entry `k` is the period the `(k+1)`-th interrupt hands to the timer. */
  function Periods(s: State, n: nat, tickNs: U32): (ps: seq<int>)
    requires tickNs > 0
    ensures |ps| == n
    ensures forall k :: 0 <= k < n ==> ps[k] == Run(s, k + 1, tickNs).period
  {
    if n == 0 then [] else Periods(s, n - 1, tickNs) + [Run(s, n, tickNs).period]
  }

  /** The `n`-th interrupt of a run programs the period selected by the
      tick count `s.ticks + n - 1`, taken modulo 2^32. */
  lemma LastPeriod(s: State, n: nat, tickNs: U32)
    requires tickNs > 0 && n > 0
    ensures Run(s, n, tickNs).period == PeriodFor(Wrap(s.ticks + (n - 1)), s.newReload, s.high, tickNs)
  {
    var p := Run(s, n - 1, tickNs);
    assert Run(s, n, tickNs) == Tick(p, tickNs);
  }

  /** Interrupt number `k` of a run programs the period selected by tick
      count `s.ticks + k` (modulo 2^32) from the published reload and high
      count. */
  lemma {:induction false} PeriodsFollowTicks(s: State, n: nat, tickNs: U32)
    requires tickNs > 0
    ensures forall k :: 0 <= k < n ==>
              Periods(s, n, tickNs)[k] == PeriodFor(Wrap(s.ticks + k), s.newReload, s.high, tickNs)
  {
    if n > 0 {
      PeriodsFollowTicks(s, n - 1, tickNs);
      LastPeriod(s, n, tickNs);
      var prev, ps := Periods(s, n - 1, tickNs), Periods(s, n, tickNs);
      assert ps == prev + [Run(s, n, tickNs).period];
      forall k | 0 <= k < n
        ensures ps[k] == PeriodFor(Wrap(s.ticks + k), s.newReload, s.high, tickNs)
      {
        if k < n - 1 {
          assert ps[k] == prev[k];
        }
      }
    }
  }

  lemma SumAppend(xs: seq<int>, x: int)
    ensures Sum(xs + [x]) == Sum(xs) + x
  {
    assert (xs + [x])[..|xs|] == xs;
  }

  /** Any sequence of periods selected by consecutive tick counts from one
      reload and high count sums to one reload per tick plus one cycle per
      long tick. */
  lemma {:induction false} SelectedSum(ps: seq<int>, t0: int, reload: U32, high: U32, tickNs: U32)
    requires tickNs > 0 && reload + 1 < MOD32
    requires forall k :: 0 <= k < |ps| ==> ps[k] == PeriodFor(t0 + k, reload, high, tickNs)
    ensures Sum(ps) == |ps| * reload + LongTicks(t0, |ps|, high, tickNs)
  {
    var n := |ps|;
    if n > 0 {
      var prev := ps[..n - 1];
      SelectedSum(prev, t0, reload, high, tickNs);
      assert ps == prev + [ps[n - 1]];
      SumAppend(prev, ps[n - 1]);
      MulSub(n, n - 1, reload);
    }
  }

  /** The periods of a run sum to `n` reloads plus one cycle per long tick. */
  lemma PeriodsSum(s: State, n: nat, tickNs: U32)
    requires tickNs > 0
    requires s.ticks + n <= MOD32
    requires s.newReload + 1 < MOD32
    ensures Sum(Periods(s, n, tickNs)) == n * s.newReload + LongTicks(s.ticks, n, s.high, tickNs)
  {
    PeriodsFollowTicks(s, n, tickNs);
    var ps := Periods(s, n, tickNs);
    forall k | 0 <= k < n
      ensures ps[k] == PeriodFor(s.ticks + k, s.newReload, s.high, tickNs)
    {
      assert Wrap(s.ticks + k) == s.ticks + k;
    }
    SelectedSum(ps, s.ticks, s.newReload, s.high, tickNs);
  }

  /** A window total of `n` reloads plus `min(n, h)` long cycles, with
      `h < n`, is `n` reloads plus `h` cycles, and scaled by the cycle length
      `n` it is `n` times the encoded tick length. */
  lemma ScaleWindow(total: int, n: U32, r: U32, h: U32, long: int)
    requires h < n && long == Min(n, h) && total == n * r + long
    ensures total == n * r + h
    ensures total * n == n * ScheduleNs(r, h, n)
  {
    assert (n * r + h) * n == n * r * n + h * n;
    assert n * (r * n + h) == n * r * n + n * h;
  }

  /** Fractional-frequency correctness: over any `g_tickNs` consecutive
      interrupts (with no `adjFreq` in between and no wrap of the tick
      counter) the programmed periods add up to `g_tickNs` reloads plus
      `high` cycles, so the window lasts exactly `g_tickNs` times the tick
      length the servo asked for. */
  lemma WindowSum(s: State, cfg: Config)
    requires ValidConfig(cfg)
    requires s.ticks + cfg.tickNs <= MOD32
    requires s.newReload + 1 < MOD32
    requires s.high < cfg.tickNs
    ensures Sum(Periods(s, cfg.tickNs, cfg.tickNs)) == cfg.tickNs * s.newReload + s.high
    ensures Sum(Periods(s, cfg.tickNs, cfg.tickNs)) * cfg.tickNs
            == cfg.tickNs * ScheduleNs(s.newReload, s.high, cfg.tickNs)
  {
    var n, r, h := cfg.tickNs, s.newReload, s.high;
    PeriodsSum(s, n, n);
    LongTicksWindow(s.ticks, h, n);
    ScaleWindow(Sum(Periods(s, n, n)), n, r, h, LongTicks(s.ticks, n, h, n));
  }

  /** What `adjFreq` promises, end to end: after `adjFreq(adj)`, the next
      `g_tickNs` interrupts last `g_tickNs` times the requested tick length
      in nanoseconds, when that length fits in a word. */
  lemma AdjFreqWindow(s: State, cfg: Config, adjMax: int, adj: I32)
    requires ValidConfig(cfg) && ValidAdjMax(adjMax)
    requires s.ticks + cfg.tickNs <= MOD32
    requires 0 <= DesiredNs(cfg, adj, adjMax) < MOD32
    requires AdjFreq(s, cfg, adjMax, adj).0.newReload + 1 < MOD32
    ensures var p := AdjFreq(s, cfg, adjMax, adj).0;
            Sum(Periods(p, cfg.tickNs, cfg.tickNs)) * cfg.tickNs
            == cfg.tickNs * DesiredNs(cfg, adj, adjMax)
  {
    WindowSum(AdjFreq(s, cfg, adjMax, adj).0, cfg);
  }
}
