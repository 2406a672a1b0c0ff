# Software-steered SysTick clock of `enet_lwip.c`

This project models, in Dafny, the time base that the TivaWare `enet_lwip`
example keeps for its PTP daemon (PTPd):

- a 100 Hz SysTick interrupt (`SysTickIntHandler`) advances a
  seconds/nanoseconds clock by a nominal 10 ms per tick, raises and lowers
  the PPS flag pair, swaps in a reload value published by the servo, and
  programs the next SysTick period;
- the frequency servo (`adjFreq`) turns the daemon's correction into a
  reload value plus a count `high` of ticks that run one cycle longer, with
  integer arithmetic only;
- `getTime` reads the clock without locking, from a snapshot taken between
  two reads of the SysTick countdown, and interpolates within the tick;
- `setTime` overwrites the clock atomically and flags that PTP has set it;
- `RandomNumber`/`getRand` are a 32-bit linear congruential generator whose
  low 16 bits are handed to the daemon.

All `unsigned long`/`uint32_t` arithmetic is 32-bit on the ARM target; the
model writes every wrap-around out as `Wrap(x) = x % 2^32` (`Word`), C's
truncating signed division as `CDiv`, and the flag word `g_ulFlags` as the
set of its set bits. The globals form one immutable record
(`Clock.State`), and every handler is a pure step function over it.

Modules: `Word` (machine words), `Clock` (state, tick step, `setTime`),
`Servo` (`adjFreq`), `Schedule` (how the long ticks are spread, runs of
ticks), `ReadTime` (`getTime`), `Random` (the generator).

Points where the code's behaviour is easy to misread; the model follows the
code:

- The long ticks are chosen by `ticks % g_tickNs < high`, so the pattern
  repeats every `g_tickNs` ticks (25 at 40 MHz), independently of the
  seconds. This is what makes the arithmetic exact: `high` is a remainder in
  nanoseconds, and `high` extra cycles of `g_tickNs` ns over `g_tickNs` ticks
  add exactly `high` ns per tick (`Schedule.WindowSum`).
- A newly published reload is swapped in on the very next tick whose active
  reload differs, wherever that tick falls in the second
  (`Servo.AdjFreqThenTick`).
- `adjFreq` writes `g_ulSystemTickHigh` directly; since the next tick swaps
  the reload in before it selects the period, that tick already uses both
  new values.
- A positive correction shortens the tick: at 40 MHz a correction of +1000
  gives reload 399999 with 15 long ticks (9,999,990 ns), and -1000 gives
  400000 with 10 (10,000,010 ns) (`Servo.Board40MHzExample`).
- `getTime` interpolates with the real cycle count while the stored time
  advances by a fixed 10 ms per tick, so when the servo lengthens the tick
  a read at the end of one tick can be later than a read at the start of
  the next (`ReadTime.ReadAcrossTick`, `ReadTime.ReadCanStepBack`).
- The entropy passed to `getRand` never reaches `g_ulRandomSeed` (see
  Findings).

## Model

| member | source | states |
|---|---|---|
| `Clock.TickConstants` | enet_lwip.c:83-86 | the tick is 10 ms, 10000 us, 10^7 ns, and 100 ticks make exactly one second in each unit |
| `Clock.ConfigFor` | enet_lwip.c:810 | `g_tickNs` is the largest whole number of nanoseconds per system clock cycle |
| `Clock.AddWithCarry` | enet_lwip.c:551-558 | adding less than one second to an in-range time, with at most one carry into the wrapping seconds, leaves it in range and exactly that far ahead on the seconds circle |
| `Clock.Init` | enet_lwip.c:831-834 | at start-up the period, active and published reload all equal the nominal `sysclock/100` cycles, high count, tick count and time are zero, no flag is set |
| `Clock.PeriodFor` | enet_lwip.c:395-403 | the programmed period is the reload or one cycle more; never longer with `high` 0, always longer once `high` reaches `g_tickNs` |
| `Clock.AdvanceTime` | enet_lwip.c:371-378 | adding one tick keeps an in-range nanosecond count in range and moves the time exactly 10 ms forward on the seconds circle; it carries into the seconds exactly when `ns + 10^7 >= 10^9`, and then the seconds increase by one (mod 2^32); an out-of-range count shrinks by at least 0.99 s |
| `Clock.TruncateTime` | enet_lwip.c:388-389 | on a swap the nanoseconds become the largest multiple of 10 ms not above them |
| `Clock.AdvanceThenTruncate` | enet_lwip.c:371-390 | a tick that swaps the reload moves the time forward by between 1 ns and 10 ms |
| `Clock.Tick` | enet_lwip.c:362-468 | one interrupt: nanoseconds stay below one second; seconds carry as above; the time advances by exactly 10 ms without a swap and by 1 ns..10 ms with one, landing on a multiple of 10 ms; afterwards the published reload is active and the servo's values are unchanged; the programmed period is the one selected by the old tick count; the tick count increments mod 2^32; PPSOUT is always clear on exit, PPSOFF is set exactly when this tick carried or PPSOUT was set on entry, other flag bits are untouched |
| `Clock.PpsOffLastsOneTick` | enet_lwip.c:418-462 | the PPS-off request is withdrawn on the tick after it was made unless that tick carries again |
| `Clock.SetTime` | enet_lwip.c:615-636 | the time becomes exactly the given value (unvalidated), FLAG_PTPTIMESET is set, every other flag bit, the reloads, the high count, the period and the tick count are unchanged |
| `Clock.SetTimeLastWins` | enet_lwip.c:626-628 | of two `setTime` calls only the second is visible |
| `Servo.Clamp` | enet_lwip.c:653-661 | the correction is cut to `[-ADJ_MAX, ADJ_MAX]`: unchanged inside, the nearer bound outside |
| `Servo.DesiredNs` | enet_lwip.c:665-675 | the tick length the servo asks for lies within `ADJ_MAX/100` ns of the nominal one, and is the nominal length minus `adj/100` (truncated) for an in-range correction |
| `Servo.Split` | enet_lwip.c:680-685 | the reload/high pair rebuilds the requested length (`reload*g_tickNs + high`) with `high < g_tickNs` |
| `Servo.AdjFreq` | enet_lwip.c:645-691 | returns TRUE; `high < g_tickNs`; `newReload*g_tickNs + high` equals `(sysclock/100)*g_tickNs - clamp(adj)/100` (C division) modulo 2^32, and equal to it when that value fits in a word, and to its 32-bit wrap in every case; only the published reload and the high count change |
| `Servo.AdjFreqSaturatesHigh` | enet_lwip.c:653-656 | any correction above `ADJ_MAX` leaves exactly the state `adjFreq(ADJ_MAX)` leaves |
| `Servo.AdjFreqSaturatesLow` | enet_lwip.c:657-660 | any correction below `-ADJ_MAX` leaves exactly the state `adjFreq(-ADJ_MAX)` leaves |
| `Servo.CorrectionBounds` | enet_lwip.c:665 | the per-tick correction is at most `ADJ_MAX/100` in size and odd in the correction (truncation toward zero) |
| `Servo.AdjFreqLastWins` | enet_lwip.c:680-685 | a second `adjFreq` overwrites everything the first published |
| `Servo.AdjFreqThenTick` | enet_lwip.c:383-403 | the tick right after `adjFreq` activates the new reload and programs `reload+1` iff `ticks % g_tickNs < high` |
| `Servo.Board40MHz` | enet_lwip.c:806-810 | at 40 MHz `g_tickNs` is 25 and the nominal tick is exactly 10 ms |
| `Servo.Board40MHzExample` | enet_lwip.c:665-685 | at 40 MHz, `adjFreq(1000)` gives reload 399999, high 15 and `adjFreq(-1000)` gives 400000, high 10 |
| `Schedule.LongTicksWindow` | enet_lwip.c:395-403 | among any `g_tickNs` consecutive tick counts exactly `min(high, g_tickNs)` select the longer period |
| `Schedule.Run` | enet_lwip.c:383-413 | a run of ticks keeps the published reload and high count, makes the published reload active, and advances the tick counter by the number of ticks modulo 2^32 |
| `Schedule.Periods` | enet_lwip.c:395-403 | the recorded periods are, in order, the values handed to `SysTickPeriodSet` by successive interrupts |
| `Schedule.LastPeriod` | enet_lwip.c:395-403 | the n-th interrupt of a run programs the period selected by tick count `ticks + n - 1` (mod 2^32) |
| `Schedule.PeriodsFollowTicks` | enet_lwip.c:395-413 | the k-th tick of a run programs the period selected by tick count `ticks + k` (mod 2^32, so also across the counter's wrap) from the published schedule |
| `Schedule.SelectedSum` | enet_lwip.c:395-403 | any periods chosen by the handler's rule for consecutive tick counts, from one reload and high count, sum to one reload per tick plus one cycle per long tick |
| `Schedule.PeriodsSum` | enet_lwip.c:395-403 | the periods of a run of n ticks sum to `n*reload` plus the number of long ticks |
| `Schedule.WindowSum` | enet_lwip.c:395-403 | over `g_tickNs` consecutive ticks the periods sum to `g_tickNs*reload + high`, so the window lasts `g_tickNs` times the tick length the servo encoded |
| `Schedule.AdjFreqWindow` | enet_lwip.c:665-685 | after `adjFreq(adj)` the next `g_tickNs` ticks last exactly `g_tickNs` times `(sysclock/100)*g_tickNs - clamp(adj)/100` ns |
| `Schedule.RunRenormalises` | enet_lwip.c:371-378 | any nanosecond count, even one `setTime` stored out of range, is below one second after four ticks |
| `ReadTime.SnapshotOf` | enet_lwip.c:517-521 | a pass records the clock's time and programmed period between its two countdown reads, and is accepted iff the second read is not above the first |
| `ReadTime.Accepts` | enet_lwip.c:535 | the loop's exit test: the second countdown read is not above the first |
| `ReadTime.Fraction` | enet_lwip.c:545 | the elapsed part of the tick is a whole number of cycles, and not negative while the countdown is within the period |
| `ReadTime.ElapsedSum` | enet_lwip.c:545 | the 32-bit nanosecond sum is congruent to snapshot nanoseconds plus elapsed fraction modulo 2^32, and equal to it when it fits |
| `ReadTime.GetTimeFromSnapshot` | enet_lwip.c:515-535 | a pass is accepted exactly when the second countdown read is not above the first, and then yields the interpolated time |
| `ReadTime.Interpolate` | enet_lwip.c:540-558 | the seconds are the snapshot's or one more; without a carry the nanoseconds are below one second; when the snapshot is in range and the elapsed fraction `(period - t2)*g_tickNs` is below one second, the result is in range and lies exactly that fraction ahead of the snapshot time; for any snapshot, including an out-of-range count stored by `setTime`, the nanoseconds are the 32-bit sum of the snapshot's count and the fraction, less one second exactly when the seconds carried |
| `ReadTime.GetTime` | enet_lwip.c:496-559 | the read succeeds iff some pass is accepted; it returns the interpolation of the first accepted pass, and every earlier pass was rejected |
| `ReadTime.SetTimeThenRead` | enet_lwip.c:540-558 | a read right after `setTime(t)`, within one nominal tick, returns a time between `t` and `t + 10 ms` |
| `ReadTime.ReadAcrossTick` | enet_lwip.c:545 | across a tick without swap, the later read is ahead of the earlier by `10 ms + f2 - f1` (the two elapsed fractions), on the seconds circle |
| `ReadTime.ReadCanStepBack` | enet_lwip.c:545 | at 40 MHz after `adjFreq(-100000)`, a read at the end of a tick (20.001000 ms) is later than a read one cycle into the next (20.000025 ms) |
| `Random.Lcg` | enet_lwip.c:235 | the generator step is `seed*1664525 + 1013904223` reduced modulo 2^32 |
| `Random.UnlcgLcg` | enet_lwip.c:235 | the generator step is undone by the inverse step |
| `Random.LcgUnlcg` | enet_lwip.c:235 | every 32-bit value is the step of its inverse |
| `Random.RandomNumber` | enet_lwip.c:227-241 | the returned value is the new seed, and the old seed is recovered from it |
| `Random.RandomNumberBijective` | enet_lwip.c:235 | distinct seeds give distinct numbers, and every number is reached |
| `Random.Low16` | enet_lwip.c:605 | the 16-bit draw agrees with the word on its low 16 bits |
| `Random.GetRand` | enet_lwip.c:589-607 | the new seed is one generator step from the old one and the draw is its low 16 bits |
| `Random.GetRandIgnoresEntropy` | enet_lwip.c:598-599 | as written, the entropy argument changes neither the draw nor the seed |
| `Random.GetRandReseeded` | enet_lwip.c:211-218 | with the seed set to the seed `RandomSeed()` derives from the entropy, the new seed is one step from that value and the draw its low 16 bits |
| `Random.ReseedReachesState` | enet_lwip.c:211-218 | with that reseed the old seed no longer matters and distinct reseeds give distinct states |
| `Word.CDiv` | enet_lwip.c:665 | signed division truncates toward zero: the remainder has the dividend's sign and is smaller than the divisor |

## Left out

- The PTPd and lwIP timer hooks (`timerTick`, `lwIPTimer`) called by the tick handler are external; they are treated as having no effect on the clock state.
- The date and time printing on the PPS-off path (`ulocaltime`, `UARTprintf`) is console output; only its flag update is modelled.
- `main`, `PinoutSet`, UART set-up, `DisplayIPAddress`, `lwIPHostTimerHandler`, `ptpd_init`, `ptpd_tick`, `displayStats` and the EMAC filter set-up are hardware bring-up, console I/O or calls into the lwIP stack and PTPd, not part of this model. `main` contributes only the start-up values in `Clock.Init` and `g_tickNs` in `Clock.ConfigFor`.
- `lwIPHostGetTime` only forwards `getTime`'s result; it is not modelled separately.
- Interrupt preemption and the `sys_arch_protect` critical section: each handler, `adjFreq` and `setTime` is one atomic step.
- `ReadTime.GetTime`: the real loop runs until the hardware produces an accepted pass; the model takes the passes as a finite sequence and reports none when none is accepted.
- The SysTick hardware itself: the countdown values and the period register are inputs of a snapshot. The model keeps the value last passed to `SysTickPeriodSet`, which is what `SysTickPeriodGet` returns to `getTime`; that a new reload only takes effect at the next wrap of the counter is not modelled.
- `ADJ_MAX` is defined in the PTPd headers, which are not part of this model; it is a parameter between 0 and 2^31-1.
- The 24-bit limit of the SysTick reload register: the code never checks that the derived reload is positive or fits, and the model does not claim it.
- The `TimeInternal` field types come from the PTPd headers, which are not part of this model; the fields are modelled as 32-bit unsigned values, which agree with signed 32-bit fields while they stay below 2^31 (as in `ReadTime.Interpolate`'s in-range case, where the sum is below 2·10^9).
- `RandomAddEntropy` and `RandomSeed` live in `utils/random.c`, which is not part of this model; being defined in another file, they cannot write the static `g_ulRandomSeed` of `enet_lwip.c`.
- The `DEBUG` wrap counters in `getTime` and the LED flag `g_bLED` do not affect the clock.
- Schedule.WindowSum: requires that the tick counter does not wrap inside the window and that `reload + 1` fits in a word; across the 2^32 wrap of `g_ulSystemTimeTicks` (about 497 days at 100 Hz) the window pattern is broken once, since 2^32 is not a multiple of `g_tickNs`.
- Schedule.PeriodsSum: same restrictions as `Schedule.WindowSum`.
- Schedule.AdjFreqWindow: states the window length only when the requested tick length and `reload + 1` fit in a word.
- ReadTime.SetTimeThenRead: only for reads whose elapsed fraction is at most one nominal tick.

## Findings

| source | as written | input that shows it | evidently intended | confidence | as-written member | corrected member |
|---|---|---|---|---|---|---|
| enet_lwip.c:598-599 | `getRand` hands the entropy to `RandomAddEntropy` and calls `RandomSeed()`; both are defined in another file and cannot write this file's static `g_ulRandomSeed` (line 218), which only the generator step at line 235 assigns | any seed, entropy 1 versus entropy 2: both calls return the same draw and leave the same seed | `g_ulRandomSeed` is set from the value `RandomSeed()` derives from the entropy, as the comment on it (lines 211-217) says | medium, not executed | `Random.GetRandIgnoresEntropy` (on `Random.GetRand`) | `Random.GetRandReseeded` (with `Random.ReseedReachesState`) |
