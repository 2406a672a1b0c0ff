/**
 `getTime`: a lock-free read of the clock from outside the interrupt. It
 reads the SysTick countdown, the two time globals and the programmed
 period, reads the countdown again, and retries until the second countdown
 read is not above the first. The accepted snapshot is then interpolated
 inside the current tick.
 */
module ReadTime {
  import opened Word
  import opened Clock
  import Servo

  /** One pass of the retry loop: the two countdown reads (`ulTime1`,
      `ulTime2`) around the snapshot of the seconds, nanoseconds and period. */
  datatype Snapshot = Snapshot(time1: U32, seconds: U32, nanoseconds: U32, period: U32, time2: U32)

  datatype Option<T> = None | Some(value: T)

  /** The snapshot a pass takes of state `s` between countdown reads
      `time1` and `time2`, when no interrupt intervenes. */
  function SnapshotOf(s: State, time1: U32, time2: U32): (snap: Snapshot)
    ensures SnapshotTime(snap) == s.time && snap.period == s.period
    ensures Accepts(snap) <==> time2 <= time1
  {
    Snapshot(time1, s.time.seconds, s.time.nanoseconds, s.period, time2)
  }

  function SnapshotTime(snap: Snapshot): Time
  {
    Time(snap.seconds, snap.nanoseconds)
  }

  /** The loop's exit condition: the countdown did not wrap between the reads. */
  predicate Accepts(snap: Snapshot)
  {
    snap.time2 <= snap.time1
  }

  /** The nanoseconds elapsed in the current tick: the cycles counted down
      since the period was loaded, times the cycle length. */
  function Fraction(snap: Snapshot, tickNs: U32): (f: int)
    ensures snap.time2 <= snap.period ==> 0 <= f
    ensures tickNs > 0 ==> f % tickNs == 0
  {
    var f := (snap.period - snap.time2) * tickNs;
    assert tickNs > 0 ==> f % tickNs == 0 by {
      if tickNs > 0 { ModMultiple(snap.period - snap.time2, 0, tickNs); }
    }
    f
  }

  /** The nanosecond sum of `getTime` in 32-bit arithmetic: the countdown
      difference, its product with the cycle length and the sum with the
      snapshot's nanoseconds each wrap modulo 2^32. The result is the word
      congruent to the mathematical sum, and equal to it when no step
      overflows. */
  function ElapsedSum(snap: Snapshot, tickNs: U32): (ns: U32)
    ensures (ns - (snap.nanoseconds + Fraction(snap, tickNs))) % MOD32 == 0
    ensures 0 <= Fraction(snap, tickNs) && snap.nanoseconds + Fraction(snap, tickNs) < MOD32 ==>
              ns == snap.nanoseconds + Fraction(snap, tickNs)
  {
    var ns := Wrap(snap.nanoseconds + Wrap(Wrap(snap.period - snap.time2) * tickNs));
    WrapMulAdd(snap.nanoseconds, snap.period - snap.time2, tickNs);
    assert 0 <= Fraction(snap, tickNs) && snap.nanoseconds + Fraction(snap, tickNs) < MOD32 ==>
             ns == snap.nanoseconds + Fraction(snap, tickNs) by {
      if 0 <= Fraction(snap, tickNs) && snap.nanoseconds + Fraction(snap, tickNs) < MOD32 {
        CongruentWords(ns, snap.nanoseconds + Fraction(snap, tickNs));
      }
    }
    ns
  }

  /** The time computed from an accepted snapshot: the snapshot time plus the
      elapsed fraction of the tick, with at most one second carried. */
  function Interpolate(snap: Snapshot, tickNs: U32): (t: Time)
    ensures t.seconds == snap.seconds || t.seconds == Wrap(snap.seconds + 1)
    ensures t.seconds == snap.seconds ==> Normal(t)
    ensures snap.time2 <= snap.period && Normal(SnapshotTime(snap)) && Fraction(snap, tickNs) < NS_PER_SEC ==>
              Normal(t) && Advance(SnapshotTime(snap), t) == Fraction(snap, tickNs)
    // in general the nanoseconds are the 32-bit sum of the snapshot's count
    // and the elapsed fraction, less one second when the seconds carried
    ensures t.seconds == snap.seconds ==>
              (t.nanoseconds - (snap.nanoseconds + Fraction(snap, tickNs))) % MOD32 == 0
    ensures t.seconds != snap.seconds ==>
              t.nanoseconds + NS_PER_SEC < MOD32 &&
              (t.nanoseconds + NS_PER_SEC - (snap.nanoseconds + Fraction(snap, tickNs))) % MOD32 == 0
  {
    var ns := ElapsedSum(snap, tickNs);
    var t := if ns >= NS_PER_SEC then Time(Wrap(snap.seconds + 1), ns - NS_PER_SEC)
             else Time(snap.seconds, ns);
    assert snap.time2 <= snap.period && Normal(SnapshotTime(snap)) && Fraction(snap, tickNs) < NS_PER_SEC ==>
             Normal(t) && Advance(SnapshotTime(snap), t) == Fraction(snap, tickNs) by {
      if snap.time2 <= snap.period && Normal(SnapshotTime(snap)) && Fraction(snap, tickNs) < NS_PER_SEC {
        AddWithCarry(SnapshotTime(snap), Fraction(snap, tickNs), t);
      }
    }
    t
  }

  /** One pass of `getTime`'s loop: `None` means go round again. */
  function GetTimeFromSnapshot(snap: Snapshot, tickNs: U32): (r: Option<Time>)
    ensures r.Some? <==> snap.time2 <= snap.time1
    ensures r.Some? ==> r.value == Interpolate(snap, tickNs)
  {
    if snap.time2 > snap.time1 then None else Some(Interpolate(snap, tickNs))
  }

  /** `getTime` over the passes the hardware happens to produce: it stops at
      the first accepted snapshot, and reports `None` if none of the given
      passes is accepted (the real loop would keep trying). `tries` is the
      number of rejected passes. */
  method GetTime(snaps: seq<Snapshot>, tickNs: U32) returns (r: Option<Time>, tries: nat)
    ensures r.Some? <==> exists i :: 0 <= i < |snaps| && Accepts(snaps[i])
    ensures tries <= |snaps|
    ensures forall j :: 0 <= j < tries ==> !Accepts(snaps[j])
    ensures r.Some? ==> tries < |snaps| && Accepts(snaps[tries]) &&
                        r.value == Interpolate(snaps[tries], tickNs)
  {
    tries := 0;
    r := None;
    while tries < |snaps|
      invariant tries <= |snaps|
      invariant forall j :: 0 <= j < tries ==> !Accepts(snaps[j])
    {
      var pass := GetTimeFromSnapshot(snaps[tries], tickNs);
      if pass.Some? {
        r := pass;
        return;
      }
      tries := tries + 1;
    }
  }

  /** Reading right after `setTime(t)` gives `t` plus the part of the current
      tick already elapsed, so a read within one nominal tick of the write is
      at most one nominal tick ahead of `t`. */
  lemma SetTimeThenRead(s: State, t: Time, time1: U32, time2: U32, tickNs: U32)
    requires Normal(t)
    requires time2 <= time1 && time2 <= s.period
    requires (s.period - time2) * tickNs <= SYSTICKNS
    ensures var r := GetTimeFromSnapshot(SnapshotOf(SetTime(s, t), time1, time2), tickNs);
            r.Some? && 0 <= Advance(t, r.value) <= SYSTICKNS
  {
  }

  /** Three points on the time circle: from `r1` back to `t0`, one nominal
      tick on to `t1`, then `f2` on to `r2`. */
  lemma CircleStep(t0: Time, r1: Time, t1: Time, r2: Time, f1: int, f2: int)
    requires Advance(t0, r1) == f1 && Advance(t0, t1) == SYSTICKNS && Advance(t1, r2) == f2
    ensures Advance(r1, r2) == (SYSTICKNS + f2 - f1) % EPOCH
  {
    var a0, a1, a2 := TotalNs(r1) - TotalNs(t0), TotalNs(t1) - TotalNs(t0), TotalNs(r2) - TotalNs(t1);
    var q0, q1, q2 := a0 / EPOCH, a1 / EPOCH, a2 / EPOCH;
    assert a0 == q0 * EPOCH + f1 && a1 == q1 * EPOCH + SYSTICKNS && a2 == q2 * EPOCH + f2;
    assert TotalNs(r2) - TotalNs(r1) == (q2 + q1 - q0) * EPOCH + (SYSTICKNS + f2 - f1);
    ModMultiple(q2 + q1 - q0, SYSTICKNS + f2 - f1, EPOCH);
  }

  /** Two reads on either side of an interrupt that swaps nothing: the
      second is ahead of the first by one nominal tick plus its own elapsed
      fraction minus the first one's. When the servo has lengthened the
      period so that the first fraction exceeds one nominal tick, the second
      read can therefore lie behind the first. */
  lemma ReadAcrossTick(s: State, tickNs: U32, a1: U32, b1: U32, a2: U32, b2: U32)
    requires tickNs > 0
    requires Normal(s.time) && s.reload == s.newReload
    requires b1 <= s.period && Fraction(SnapshotOf(s, a1, b1), tickNs) < NS_PER_SEC
    requires var n := Tick(s, tickNs);
             b2 <= n.period && Fraction(SnapshotOf(n, a2, b2), tickNs) < NS_PER_SEC
    ensures var n := Tick(s, tickNs);
            var f1 := Fraction(SnapshotOf(s, a1, b1), tickNs);
            var f2 := Fraction(SnapshotOf(n, a2, b2), tickNs);
            Advance(Interpolate(SnapshotOf(s, a1, b1), tickNs), Interpolate(SnapshotOf(n, a2, b2), tickNs))
            == (SYSTICKNS + f2 - f1) % EPOCH
  {
    var n := Tick(s, tickNs);
    var snap1, snap2 := SnapshotOf(s, a1, b1), SnapshotOf(n, a2, b2);
    assert SnapshotTime(snap1) == s.time;
    assert SnapshotTime(snap2) == n.time;
    CircleStep(s.time, Interpolate(snap1, tickNs), n.time, Interpolate(snap2, tickNs),
               Fraction(snap1, tickNs), Fraction(snap2, tickNs));
  }

  /** A concrete case at 40 MHz: after `adjFreq(-100000)` the tick is
      400040 cycles (10.001 ms) long. A read at the very end of a tick then
      returns 20.001000 ms, and a read one cycle into the next tick returns
      20.000025 ms: the clock appears to step back by 975 ns. */
  lemma ReadCanStepBack()
    ensures var cfg := Config(40_000_000, 25);
            var s1 := Servo.AdjFreq(Init(cfg), cfg, 512000, -100000).0;
            var s2 := Tick(s1, 25);
            var s3 := Tick(s2, 25);
            var r1 := Interpolate(SnapshotOf(s2, 0, 0), 25);
            var r2 := Interpolate(SnapshotOf(s3, 400039, 400039), 25);
            && s2.reload == 400040 && s2.period == 400040
            && TotalNs(r1) == 20_001_000 && TotalNs(r2) == 20_000_025
  {
  }
}
