/**
 The frequency servo `adjFreq`: it turns the PTP daemon's frequency
 correction into a reload value and a count of one-cycle-longer ticks, using
 integer arithmetic only.
 */
module Servo {
  import opened Word
  import opened Clock

  /** The largest value `ADJ_MAX` can take: `-ADJ_MAX` must still be an `Integer32`. */
  predicate ValidAdjMax(adjMax: int)
  {
    0 <= adjMax < 0x8000_0000
  }

  /** The range check at the top of `adjFreq`: corrections beyond `ADJ_MAX`
      in either direction are cut back to the bound, not rejected. */
  function Clamp(adj: I32, adjMax: int): (r: I32)
    requires ValidAdjMax(adjMax)
    ensures -adjMax <= r <= adjMax
    ensures -adjMax <= adj <= adjMax ==> r == adj
    ensures adj > adjMax ==> r == adjMax
    ensures adj < -adjMax ==> r == -adjMax
  {
    if adj > adjMax then adjMax
    else if adj < -adjMax then -adjMax
    else adj
  }

  /** The nominal length of one tick in nanoseconds as `adjFreq` computes it,
      `(g_ui32SysClock / SYSTICKHZ) * g_tickNs`, before it is stored. */
  function NominalNs(cfg: Config): int
  {
    (cfg.sysClock / SYSTICKHZ) * cfg.tickNs
  }

  /** The per-tick correction in nanoseconds: the clamped correction divided
      by the tick rate, truncated toward zero. */
  function CorrectionNs(adj: I32, adjMax: int): int
    requires ValidAdjMax(adjMax)
  {
    CDiv(Clamp(adj, adjMax), SYSTICKHZ)
  }

  /** The tick length the servo asks for, in nanoseconds, as a mathematical
      integer (before any 32-bit wrap-around). */
  function DesiredNs(cfg: Config, adj: I32, adjMax: int): (d: int)
    requires ValidAdjMax(adjMax)
    ensures NominalNs(cfg) - adjMax / SYSTICKHZ <= d <= NominalNs(cfg) + adjMax / SYSTICKHZ
    ensures -adjMax <= adj <= adjMax ==> d == NominalNs(cfg) - CDiv(adj, SYSTICKHZ)
  {
    CorrectionBounds(adj, adjMax);
    NominalNs(cfg) - CorrectionNs(adj, adjMax)
  }

  /** The tick length encoded by a reload/high pair: `reload` cycles of
      `tickNs` nanoseconds each, plus `high` nanoseconds spread as one extra
      cycle on `high` of every `tickNs` ticks. */
  function ScheduleNs(reload: U32, high: U32, tickNs: U32): int
  {
    reload * tickNs + high
  }

  /** The remainder and quotient steps of `adjFreq`: the requested tick length `temp`
      becomes a reload of whole cycles and a remainder below one cycle. */
  function Split(temp: U32, tickNs: U32): (r: (U32, U32))
    requires tickNs > 0
    ensures r.1 < tickNs
    ensures ScheduleNs(r.0, r.1, tickNs) == temp
  {
    DivMod(temp, tickNs);
    (temp / tickNs, temp % tickNs)
  }

  /** `adjFreq(adj)`: publish the reload for the requested tick length in
      `newReload` and its remainder in `high`. The active reload, the time,
      the tick count and the flags are untouched. Always returns TRUE. */
  function AdjFreq(s: State, cfg: Config, adjMax: int, adj: I32): (r: (State, bool))
    requires ValidConfig(cfg) && ValidAdjMax(adjMax)
    ensures r.1
    ensures r.0.high < cfg.tickNs
    ensures (ScheduleNs(r.0.newReload, r.0.high, cfg.tickNs) - DesiredNs(cfg, adj, adjMax)) % MOD32 == 0
    ensures 0 <= DesiredNs(cfg, adj, adjMax) < MOD32 ==>
              ScheduleNs(r.0.newReload, r.0.high, cfg.tickNs) == DesiredNs(cfg, adj, adjMax)
    ensures ScheduleNs(r.0.newReload, r.0.high, cfg.tickNs) == Wrap(DesiredNs(cfg, adj, adjMax))
    ensures r.0 == s.(newReload := r.0.newReload, high := r.0.high)
  {
    var a := Clamp(adj, adjMax);
    var perTick := CDiv(a, SYSTICKHZ);
    var nominal := Wrap(NominalNs(cfg));
    var temp := Wrap(nominal - perTick);
    var (newReload, high) := Split(temp, cfg.tickNs);
    WrapSub(NominalNs(cfg), perTick);
    assert 0 <= NominalNs(cfg) - perTick < MOD32 ==> temp == NominalNs(cfg) - perTick by {
      if 0 <= NominalNs(cfg) - perTick < MOD32 {
        CongruentWords(temp, NominalNs(cfg) - perTick);
      }
    }
    CongruentTrans(temp, NominalNs(cfg) - perTick, Wrap(NominalNs(cfg) - perTick));
    CongruentWords(temp, Wrap(NominalNs(cfg) - perTick));
    (s.(high := high, newReload := newReload), true)
  }

  /** A correction above `ADJ_MAX` acts exactly as `ADJ_MAX`. */
  lemma AdjFreqSaturatesHigh(s: State, cfg: Config, adjMax: int, adj: I32)
    requires ValidConfig(cfg) && ValidAdjMax(adjMax)
    requires adj > adjMax
    ensures AdjFreq(s, cfg, adjMax, adj) == AdjFreq(s, cfg, adjMax, adjMax)
  {
  }

  /** A correction below `-ADJ_MAX` acts exactly as `-ADJ_MAX`. */
  lemma AdjFreqSaturatesLow(s: State, cfg: Config, adjMax: int, adj: I32)
    requires ValidConfig(cfg) && ValidAdjMax(adjMax)
    requires adj < -adjMax
    ensures AdjFreq(s, cfg, adjMax, adj) == AdjFreq(s, cfg, adjMax, -adjMax)
  {
  }

  /** The per-tick correction never exceeds `ADJ_MAX / SYSTICKHZ` in size,
      and opposite corrections give opposite per-tick corrections. */
  lemma CorrectionBounds(adj: I32, adjMax: int)
    requires ValidAdjMax(adjMax)
    ensures -(adjMax / SYSTICKHZ) <= CorrectionNs(adj, adjMax) <= adjMax / SYSTICKHZ
    ensures -0x8000_0000 < adj ==> CorrectionNs(-adj, adjMax) == -CorrectionNs(adj, adjMax)
  {
    if -0x8000_0000 < adj {
      CDivOdd(Clamp(adj, adjMax), SYSTICKHZ);
    }
  }

  /** Only the latest correction matters: a second `adjFreq` overwrites
      everything the first one published. */
  lemma AdjFreqLastWins(s: State, cfg: Config, adjMax: int, a: I32, b: I32)
    requires ValidConfig(cfg) && ValidAdjMax(adjMax)
    ensures AdjFreq(AdjFreq(s, cfg, adjMax, a).0, cfg, adjMax, b) == AdjFreq(s, cfg, adjMax, b)
  {
  }

  /** The published schedule takes effect on the very next tick, whatever the
      position in the second: that tick makes it active and programs its
      period from the new reload and high count. */
  lemma AdjFreqThenTick(s: State, cfg: Config, adjMax: int, adj: I32)
    requires ValidConfig(cfg) && ValidAdjMax(adjMax)
    ensures var p := AdjFreq(s, cfg, adjMax, adj).0;
            var t := Tick(p, cfg.tickNs);
            t.reload == p.newReload && t.high == p.high &&
            (t.period == Wrap(p.newReload + 1) <==> s.ticks % cfg.tickNs < p.high)
  {
  }

  /** The board runs at 40 MHz: one cycle is 25 ns and the nominal tick is
      400000 cycles, exactly 10 ms. */
  lemma Board40MHz()
    ensures ConfigFor(40_000_000) == Config(40_000_000, 25)
    ensures NominalNs(ConfigFor(40_000_000)) == SYSTICKNS
  {
  }

  /** At 40 MHz with `ADJ_MAX` = 512000, a correction of +1000 shortens the
      tick by 10 ns: 399999 cycles, 15 of every 25 ticks one cycle longer;
      a correction of -1000 gives 400000 cycles with 10 longer ticks. */
  lemma Board40MHzExample(s: State)
    ensures var r := AdjFreq(s, Config(40_000_000, 25), 512000, 1000).0;
            r.newReload == 399999 && r.high == 15
    ensures var r := AdjFreq(s, Config(40_000_000, 25), 512000, -1000).0;
            r.newReload == 400000 && r.high == 10
  {
  }
}
