/**
 The software clock kept by the SysTick interrupt of `enet_lwip.c`: the
 globals that hold the seconds/nanoseconds time, the reload schedule and the
 tick counter, the 100 Hz tick step that advances them, and the atomic
 `setTime` overwrite used by the PTP daemon.
 */
module Clock {
  import opened Word

  /** Interrupt rate of the SysTick timer (`SYSTICKHZ`). */
  const SYSTICKHZ: nat := 100
  /** Nominal length of one tick in milliseconds (`SYSTICKMS`), the step
      passed to the PTPd and lwIP timer hooks. */
  const SYSTICKMS: nat := 1000 / SYSTICKHZ
  /** Nominal length of one tick in microseconds (`SYSTICKUS`). */
  const SYSTICKUS: nat := 1_000_000 / SYSTICKHZ
  /** Nominal length of one tick in nanoseconds (`SYSTICKNS`). */
  const SYSTICKNS: nat := 1_000_000_000 / SYSTICKHZ
  const NS_PER_SEC: nat := 1_000_000_000

  /** The tick rate divides a second exactly in every unit, so 100 ticks of
      `SYSTICKNS` make up one second with no rounding loss. */
  lemma TickConstants()
    ensures SYSTICKMS == 10 && SYSTICKUS == 10_000 && SYSTICKNS == 10_000_000
    ensures SYSTICKHZ * SYSTICKMS == 1000 && SYSTICKHZ * SYSTICKUS == 1_000_000
    ensures SYSTICKHZ * SYSTICKNS == NS_PER_SEC
  {
  }

  /** The time value range of the seconds/nanoseconds pair: seconds wrap at 2^32. */
  const EPOCH: int := MOD32 * NS_PER_SEC

  /** Bit positions in `g_ulFlags`. */
  const FLAG_PPSOUT: nat := 0
  const FLAG_PPSOFF: nat := 1
  const FLAG_PTPDINIT: nat := 2
  const FLAG_PTPTIMESET: nat := 3
  const FLAG_IPUPDATE: nat := 4

  /** The values fixed at start-up: the system clock frequency
      (`g_ui32SysClock`) and the length of one clock cycle in nanoseconds
      (`g_tickNs`). */
  datatype Config = Config(sysClock: U32, tickNs: U32)

  /** The handler and the servo divide by `g_tickNs`. */
  predicate ValidConfig(cfg: Config)
  {
    cfg.tickNs > 0
  }

  /** `g_tickNs = 1000000000 / g_ui32SysClock`: the whole number of
      nanoseconds in one system clock cycle, rounded down. */
  function ConfigFor(sysClock: U32): (cfg: Config)
    requires sysClock > 0
    ensures cfg.sysClock == sysClock
    ensures cfg.tickNs * sysClock <= NS_PER_SEC < (cfg.tickNs + 1) * sysClock
  {
    Config(sysClock, NS_PER_SEC / sysClock)
  }

  /** The time as the PTP daemon sees it (`TimeInternal`). */
  datatype Time = Time(seconds: U32, nanoseconds: U32)

  /** The clock globals.
      - `time`: `g_ulSystemTimeSeconds` and `g_ulSystemTimeNanoSeconds`
      - `ticks`: `g_ulSystemTimeTicks`, the run-time tick counter
      - `reload`: `g_ulSystemTickReload`, the active reload value
      - `newReload`: `g_ulNewSystemTickReload`, the reload last published by the servo
      - `high`: `g_ulSystemTickHigh`, how many ticks of each window run one cycle longer
      - `period`: the value last handed to `SysTickPeriodSet`
      - `flags`: `g_ulFlags` */
  datatype State = State(
    time: Time,
    ticks: U32,
    reload: U32,
    newReload: U32,
    high: U32,
    period: U32,
    flags: Flags)

  /** The time held by a seconds/nanoseconds pair, in nanoseconds. */
  function TotalNs(t: Time): int
  {
    t.seconds * NS_PER_SEC + t.nanoseconds
  }

  /** A well-formed time: the nanoseconds are below one second. */
  predicate Normal(t: Time)
  {
    t.nanoseconds < NS_PER_SEC
  }

  /** How far `b` lies ahead of `a` on the time circle of `EPOCH` nanoseconds
      (the seconds field wraps at 2^32). */
  function Advance(a: Time, b: Time): int
  {
    (TotalNs(b) - TotalNs(a)) % EPOCH
  }

  /** Adding `f` nanoseconds, less than one second, to an in-range time with
      at most one carry into the (wrapping) seconds moves it exactly `f`
      ahead on the time circle. */
  lemma AddWithCarry(t: Time, f: int, r: Time)
    requires Normal(t) && 0 <= f < NS_PER_SEC
    requires t.nanoseconds + f >= NS_PER_SEC ==>
               r == Time(Wrap(t.seconds + 1), t.nanoseconds + f - NS_PER_SEC)
    requires t.nanoseconds + f < NS_PER_SEC ==> r == Time(t.seconds, t.nanoseconds + f)
    ensures Normal(r) && Advance(t, r) == f
  {
    if t.nanoseconds + f >= NS_PER_SEC && t.seconds == MOD32 - 1 {
      assert TotalNs(r) - TotalNs(t) == f - EPOCH;
      DivModUnique(f - EPOCH, EPOCH, -1, f);
    } else {
      assert TotalNs(r) - TotalNs(t) == f;
      DivModUnique(f, EPOCH, 0, f);
    }
  }

  /** The state right after start-up: the statics are zero and the SysTick
      period, the active and the published reload all hold the nominal
      `g_ui32SysClock / SYSTICKHZ` cycles. */
  function Init(cfg: Config): (s: State)
    ensures s.reload == s.newReload == s.period
    ensures s.reload * SYSTICKHZ <= cfg.sysClock < (s.reload + 1) * SYSTICKHZ
    ensures s.high == 0 && s.ticks == 0
    ensures TotalNs(s.time) == 0
    ensures forall b: nat :: !TestBit(s.flags, b)
  {
    var nominal := cfg.sysClock / SYSTICKHZ;
    State(Time(0, 0), 0, nominal, nominal, 0, nominal, {})
  }

  /** The SysTick period the handler programs for tick number `ticks`: one
      cycle longer than `reload` for the first `high` tick counts of every
      window of `tickNs` consecutive counts. */
  function PeriodFor(ticks: int, reload: U32, high: U32, tickNs: U32): (r: U32)
    requires tickNs > 0
    ensures r == reload || r == Wrap(reload + 1)
    // no tick runs long when `high` is zero, every tick does once `high` reaches `tickNs`
    ensures high == 0 ==> r == reload
    ensures high >= tickNs ==> r == Wrap(reload + 1)
  {
    if ticks % tickNs < high then Wrap(reload + 1) else reload
  }

  /** Does advancing `t` by one nominal tick carry into the seconds? */
  predicate Carries(t: Time)
  {
    Wrap(t.nanoseconds + SYSTICKNS) >= NS_PER_SEC
  }

  /** The first step of the handler: add one nominal tick to the time and,
      when the nanoseconds reach one second, move one second of them into
      the seconds. */
  function AdvanceTime(t: Time): (r: Time)
    ensures Normal(t) ==> Normal(r) && Advance(t, r) == SYSTICKNS
    ensures Normal(r) || r.nanoseconds + (NS_PER_SEC - SYSTICKNS) <= t.nanoseconds
    ensures Normal(t) ==> (Carries(t) <==> t.nanoseconds + SYSTICKNS >= NS_PER_SEC)
    ensures Carries(t) ==> r.seconds == Wrap(t.seconds + 1)
    ensures !Carries(t) ==> r.seconds == t.seconds
  {
    var ns := Wrap(t.nanoseconds + SYSTICKNS);
    var r := if ns >= NS_PER_SEC then Time(Wrap(t.seconds + 1), ns - NS_PER_SEC)
             else Time(t.seconds, ns);
    assert Normal(t) ==> Advance(t, r) == SYSTICKNS by {
      if Normal(t) {
        AddWithCarry(t, SYSTICKNS, r);
      }
    }
    r
  }

  /** The handler's adjustment on a reload swap: the nanoseconds drop to the
      largest multiple of one nominal tick that does not exceed them. */
  function TruncateTime(t: Time): (r: Time)
    ensures r.seconds == t.seconds
    ensures r.nanoseconds % SYSTICKNS == 0
    ensures r.nanoseconds <= t.nanoseconds < r.nanoseconds + SYSTICKNS
  {
    Time(t.seconds, (t.nanoseconds / SYSTICKNS) * SYSTICKNS)
  }

  /** Dropping less than one nominal tick after a full one still moves forward. */
  lemma AdvanceThenTruncate(t: Time)
    requires Normal(t)
    ensures 1 <= Advance(t, TruncateTime(AdvanceTime(t))) <= SYSTICKNS
  {
    var a := AdvanceTime(t);
    var c := TruncateTime(a);
    var k := a.nanoseconds - c.nanoseconds;
    assert 0 <= k < SYSTICKNS;
    if t.nanoseconds + SYSTICKNS >= NS_PER_SEC && t.seconds == MOD32 - 1 {
      assert TotalNs(c) - TotalNs(t) == (SYSTICKNS - k) - EPOCH;
      DivModUnique((SYSTICKNS - k) - EPOCH, EPOCH, -1, SYSTICKNS - k);
    } else {
      assert TotalNs(c) - TotalNs(t) == SYSTICKNS - k;
      DivModUnique(SYSTICKNS - k, EPOCH, 0, SYSTICKNS - k);
    }
  }

  /** One SysTick interrupt: advance the time by one nominal tick, swap in a
      newly published reload value, program the next period and count the
      tick. The PTPd and lwIP timer hooks have no effect on this state. */
  function Tick(s: State, tickNs: U32): (r: State)
    requires tickNs > 0
    // the nanoseconds stay below one second and carry into the seconds
    ensures Normal(s.time) ==> Normal(r.time)
    // an out-of-range nanosecond count, which only `setTime` can store, shrinks
    // by almost one second per tick until it is back in range
    ensures Normal(r.time) || r.time.nanoseconds + (NS_PER_SEC - SYSTICKNS) <= s.time.nanoseconds
    ensures Carries(s.time) ==> r.time.seconds == Wrap(s.time.seconds + 1)
    ensures !Carries(s.time) ==> r.time.seconds == s.time.seconds
    // the time advances by one nominal tick, or by less on a reload swap
    ensures Normal(s.time) && s.reload == s.newReload ==> Advance(s.time, r.time) == SYSTICKNS
    ensures Normal(s.time) && s.reload != s.newReload ==>
              r.time.nanoseconds % SYSTICKNS == 0 && 1 <= Advance(s.time, r.time) <= SYSTICKNS
    // the published reload is active from this tick on; the servo's values stay
    ensures r.reload == s.newReload && r.newReload == s.newReload && r.high == s.high
    ensures r.period == PeriodFor(s.ticks, s.newReload, s.high, tickNs)
    ensures r.ticks == Wrap(s.ticks + 1)
    // the PPS flag pair: PPSOUT never survives a tick, PPSOFF is armed by a carry
    ensures !TestBit(r.flags, FLAG_PPSOUT)
    ensures TestBit(r.flags, FLAG_PPSOFF) <==> Carries(s.time) || TestBit(s.flags, FLAG_PPSOUT)
    ensures forall b: nat :: b != FLAG_PPSOUT && b != FLAG_PPSOFF ==>
              (TestBit(r.flags, b) <==> TestBit(s.flags, b))
  {
    // advance the time, carrying into the seconds and raising the PPS output
    var advanced := AdvanceTime(s.time);
    var f1 := if Carries(s.time) then SetBit(s.flags, FLAG_PPSOUT) else s.flags;
    // swap in a newly published reload value
    var swap := s.reload != s.newReload;
    var reload := if swap then s.newReload else s.reload;
    var time := if swap then TruncateTime(advanced) else advanced;
    assert Normal(s.time) && swap ==> 1 <= Advance(s.time, time) <= SYSTICKNS by {
      if Normal(s.time) && swap {
        AdvanceThenTruncate(s.time);
      }
    }
    // program the next period
    var period := PeriodFor(s.ticks, reload, s.high, tickNs);
    var ticks := Wrap(s.ticks + 1);
    // negate the PPS output raised on the previous pass
    var f2 := if TestBit(f1, FLAG_PPSOFF) then ClearBit(f1, FLAG_PPSOFF) else f1;
    // arm the negation for the next pass
    var f3 := if TestBit(f2, FLAG_PPSOUT) then SetBit(ClearBit(f2, FLAG_PPSOUT), FLAG_PPSOFF) else f2;
    State(time, ticks, reload, s.newReload, s.high, period, f3)
  }

  /** The PPS output is negated one tick after it was raised, unless that
      tick raises it again. */
  lemma PpsOffLastsOneTick(s: State, tickNs: U32)
    requires tickNs > 0
    requires !Carries(Tick(s, tickNs).time)
    ensures !TestBit(Tick(Tick(s, tickNs), tickNs).flags, FLAG_PPSOFF)
  {
  }

  /** `setTime`: both time fields and the FLAG_PTPTIMESET bit are written in
      one critical section; the value is not validated. */
  function SetTime(s: State, t: Time): (r: State)
    ensures r.time == t
    ensures TestBit(r.flags, FLAG_PTPTIMESET)
    ensures forall b: nat :: b != FLAG_PTPTIMESET ==> (TestBit(r.flags, b) <==> TestBit(s.flags, b))
    ensures r.ticks == s.ticks && r.period == s.period
    ensures r.reload == s.reload && r.newReload == s.newReload && r.high == s.high
  {
    s.(time := t, flags := SetBit(s.flags, FLAG_PTPTIMESET))
  }

  /** Only the last of two `setTime` calls is visible. */
  lemma SetTimeLastWins(s: State, a: Time, b: Time)
    ensures SetTime(SetTime(s, a), b) == SetTime(s, b)
  {
  }
}
