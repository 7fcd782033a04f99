/**
 The guest clock and the quantum loop of src/browser_runtime.rs. Host clock values and
 the rounded rates are arbitrary; the integer mapping between cycles and ticks is not.
 */
module GuestClock {
  import opened Wrappers
  import opened Arithmetic

  const U32_MAX: nat := 0xffff_ffff
  const U64_MAX: nat := 0xffff_ffff_ffff_ffff
  const U128_MAX: nat := 0xffff_ffff_ffff_ffff_ffff_ffff_ffff_ffff
  const TICKS_PER_MILLISECOND: nat := 10_000
  const MAX_WAKE_DELAY: nat := 1_000_000

  type U64 = n: nat | n <= U64_MAX
  type Rate = n: nat | 0 < n <= U64_MAX witness 1
  type Budget = n: nat | 0 < n <= U32_MAX witness 1

  datatype Outcome = BudgetReached | WfiSleep | VmInactive | HostServiceRequired

  datatype Quantum = Quantum(start: U64, cycleRate: Rate, tickRate: Rate, budget: Budget,
                             consumed: nat, stalled: nat, wakeDelay: nat, terminal: Option<Outcome>)

  function AtMost(x: nat, limit: nat): nat { if x <= limit then x else limit }

  /** Whole ticks after the quantum's cycles, before saturation. */
  function Elapsed(q: Quantum): nat {
    Quotient(q.consumed * q.tickRate, q.cycleRate)
  }

  function GuestTicks(q: Quantum): U64 {
    AtMost(q.start + AtMost(Elapsed(q), U64_MAX), U64_MAX)
  }

  function CyclesUntilDeadline(q: Quantum, remaining: nat): nat {
    var offset := GuestTicks(q) - q.start + remaining;
    var numerator := AtMost(AtMost(offset * q.cycleRate, U128_MAX) + q.tickRate - 1, U128_MAX);
    var additional := Minus(Quotient(numerator, q.tickRate), q.consumed);
    AtMost(if additional < 1 then 1 else additional, U32_MAX)
  }

  function Minus(a: nat, b: nat): nat { if a < b then 0 else a - b }

  // -------------------------------------------------------------------- the mapping

  /** The elapsed ticks are the cycles run at the cycle rate, counted at the tick rate, rounded down. */
  lemma ElapsedIsFloor(q: Quantum, n: nat)
    ensures Elapsed(q) == n <==> n * q.cycleRate <= q.consumed * q.tickRate < (n + 1) * q.cycleRate
  {
    var e := Elapsed(q);
    if n < e { TimesMonotone(n + 1, e, q.cycleRate); }
    if n > e { TimesMonotone(e + 1, n, q.cycleRate); }
  }

  /** Only the consumed cycles move the clock of a quantum, and more never move it back. */
  lemma TicksMonotone(q: Quantum, r: Quantum)
    requires r.start == q.start && r.cycleRate == q.cycleRate && r.tickRate == q.tickRate && q.consumed <= r.consumed
    ensures q.start <= GuestTicks(q) <= GuestTicks(r)
  {
    TimesMonotone(q.consumed, r.consumed, q.tickRate);
    QuotientMonotone(q.consumed * q.tickRate, r.consumed * r.tickRate, q.cycleRate);
  }

  /** Nothing saturates: the deadline is representable. */
  predicate Representable(q: Quantum, remaining: nat) {
    q.start + Elapsed(q) + remaining <= U64_MAX
  }

  /** The ceiling of n / d is the least multiplier whose product reaches n. */
  lemma CeilingIsLeast(n: nat, d: nat, c: nat)
    requires d > 0
    ensures c * d >= n <==> c >= Quotient(n + d - 1, d)
  {
    QuotientFacts(n + d - 1, d);
    CeilingAt(n, d, c, Quotient(n + d - 1, d), (n + d - 1) % d);
  }

  lemma CeilingAt(n: nat, d: nat, c: nat, q: nat, r: nat)
    requires d > 0 && n + d - 1 == d * q + r && r < d
    ensures c * d >= n <==> c >= q
  {
    TimesNext(c, d);
    if c >= q { TimesMonotone(q, c, d); } else { TimesMonotone(c + 1, q, d); }
  }

  lemma ProductFits(offset: nat, rate: nat, ticks: nat)
    requires offset <= U64_MAX && rate <= U64_MAX && 0 < ticks <= U64_MAX
    ensures offset * rate + ticks - 1 <= U128_MAX
  {
    TimesMonotone(rate, U64_MAX, offset);
    TimesMonotone(offset, U64_MAX, U64_MAX);
  }

  /** After c more cycles the clock has advanced by `remaining` ticks exactly when the ceiling is reached. */
  lemma DeadlineReached(q: Quantum, remaining: nat, c: nat, goal: nat)
    requires Representable(q, remaining) && goal == q.cycleRate * (Elapsed(q) + remaining)
    ensures GuestTicks(q.(consumed := q.consumed + c)) >= GuestTicks(q) + remaining
            <==> (q.consumed + c) * q.tickRate >= goal
  {
    QuotientReaches((q.consumed + c) * q.tickRate, q.cycleRate, Elapsed(q) + remaining);
  }

  lemma NumeratorIs(q: Quantum, remaining: nat, goal: nat)
    requires Representable(q, remaining) && goal == q.cycleRate * (Elapsed(q) + remaining)
    ensures var additional := Minus(Quotient(goal + q.tickRate - 1, q.tickRate), q.consumed);
            CyclesUntilDeadline(q, remaining) == AtMost(if additional < 1 then 1 else additional, U32_MAX)
  {
    var offset := Elapsed(q) + remaining;
    ProductFits(offset, q.cycleRate, q.tickRate);
    Commutes(offset, q.cycleRate);
  }

  /** The cycle count for a deadline is the least at which the clock has advanced that far. */
  lemma DeadlineIsLeast(q: Quantum, remaining: nat, c: nat)
    requires Representable(q, remaining) && remaining >= 1
    ensures CyclesUntilDeadline(q, remaining) >= 1
    ensures GuestTicks(q.(consumed := q.consumed + c)) >= GuestTicks(q) + remaining ==>
              c >= CyclesUntilDeadline(q, remaining)
    ensures CyclesUntilDeadline(q, remaining) < U32_MAX && c >= CyclesUntilDeadline(q, remaining) ==>
              GuestTicks(q.(consumed := q.consumed + c)) >= GuestTicks(q) + remaining
  {
    var goal := ProductOf(q.cycleRate, Elapsed(q) + remaining);
    DeadlineReached(q, remaining, c, goal);
    QuotientReaches(q.consumed * q.tickRate, q.cycleRate, Elapsed(q) + remaining);
    CeilingIsLeast(goal, q.tickRate, q.consumed + c);
    CeilingIsLeast(goal, q.tickRate, q.consumed);
    NumeratorIs(q, remaining, goal);
  }

  // ---------------------------------------------------------------------- the loop

  datatype Reason = CycleLimitReached | TimerReprogrammed | Sleep | HostService | Other

  /** What one activation of the interpreter did: cycles, why it stopped, whether it sleeps, queued actions. */
  datatype CpuRun = CpuRun(consumed: nat, reason: Reason, asleep: bool, actions: bool) | Inactive | Broken

  datatype RunError = NoProgress | MachineFailed

  /** The machine: what its nth activation does under a cycle limit, and its next timer at a guest time. */
  datatype Machine = Machine(cpu: (nat, nat) -> CpuRun, timer: (nat, nat) -> Option<nat>)

  /** The limit handed to activation n: the rest of the budget, or less when a timer is due before. */
  function CycleLimit(m: Machine, q: Quantum, n: nat): nat {
    var due := m.timer(n, GuestTicks(q));
    var left := Minus(q.budget, q.consumed);
    if due.None? then left else AtMost(left, CyclesUntilDeadline(q, due.value))
  }

  /** What activation n of a quantum does after c cycles, and how long a guest asleep then may wait. */
  datatype Course = Course(run: (nat, nat) -> CpuRun, wake: (nat, nat) -> nat)

  function CourseOf(m: Machine, start: Quantum): Course {
    Course((c: nat, n: nat) => m.cpu(n, CycleLimit(m, start.(consumed := c), n)),
           (c: nat, n: nat) => WakeDelay(m.timer(n, GuestTicks(start.(consumed := c)))))
  }

  /** The cycles consumed before activation n. */
  function ConsumedAt(course: Course, start: nat, n: nat): nat {
    if n == 0 then start
    else
      var before := ConsumedAt(course, start, n - 1);
      var run := course.run(before, n - 1);
      before + if run.CpuRun? then run.consumed else 0
  }

  /** Activation n, as the loop reaches it. */
  function Activation(course: Course, start: nat, n: nat): CpuRun {
    course.run(ConsumedAt(course, start, n), n)
  }

  predicate StandsStill(run: CpuRun) { run.CpuRun? && run.consumed == 0 }

  /** The interpreter stood still twice in a row, or reached a limit without a cycle. */
  ghost predicate Stuck(course: Course, start: Quantum, n: nat) {
    && n > 0 && StandsStill(Activation(course, start.consumed, n - 1))
    && (|| Activation(course, start.consumed, n - 1).reason == CycleLimitReached
        || (if n == 1 then start.stalled > 0 else StandsStill(Activation(course, start.consumed, n - 2))))
  }

  /** A CPU that keeps to its limit never runs past a timer deadline or the budget. */
  lemma LimitIsSafe(m: Machine, q: Quantum, n: nat, c: nat)
    requires c <= CycleLimit(m, q, n) && q.consumed <= q.budget
    ensures q.consumed + c <= q.budget
    ensures var due := m.timer(n, GuestTicks(q));
            due.Some? && due.value >= 1 && Representable(q, due.value) && c < CycleLimit(m, q, n) ==>
              GuestTicks(q.(consumed := q.consumed + c)) < GuestTicks(q) + due.value
  {
    var due := m.timer(n, GuestTicks(q));
    if due.Some? && due.value >= 1 && Representable(q, due.value) { DeadlineIsLeast(q, due.value, c); }
  }

  /** And the limit is as large as that allows: it uses up the budget or reaches the deadline. */
  lemma LimitIsTight(m: Machine, q: Quantum, n: nat)
    requires q.consumed < q.budget
    ensures var c, due := CycleLimit(m, q, n), m.timer(n, GuestTicks(q));
            && c > 0
            && (due.None? ==> q.consumed + c == q.budget)
            && (due.Some? && due.value >= 1 && Representable(q, due.value) ==>
                  q.consumed + c == q.budget || GuestTicks(q.(consumed := q.consumed + c)) >= GuestTicks(q) + due.value)
  {
    var c, due := CycleLimit(m, q, n), m.timer(n, GuestTicks(q));
    if due.Some? && due.value >= 1 && Representable(q, due.value) { DeadlineIsLeast(q, due.value, c); }
  }

  /** A CPU that keeps to the limits it is handed never runs a quantum past its budget. */
  lemma {:induction false} HonestCpuKeepsBudget(m: Machine, start: Quantum, n: nat)
    requires start.consumed <= start.budget
    requires forall k: nat, limit: nat :: m.cpu(k, limit).CpuRun? ==> m.cpu(k, limit).consumed <= limit
    ensures ConsumedAt(CourseOf(m, start), start.consumed, n) <= start.budget
    decreases n
  {
    if n > 0 {
      HonestCpuKeepsBudget(m, start, n - 1);
      var before := ConsumedAt(CourseOf(m, start), start.consumed, n - 1);
      var run := CourseOf(m, start).run(before, n - 1);
      if run.CpuRun? { LimitIsSafe(m, start.(consumed := before), n - 1, run.consumed); }
    }
  }

  /** The guest waits for an interrupt and the interpreter agrees that it sleeps. */
  predicate Sleeps(run: CpuRun) { run.CpuRun? && run.reason == Sleep && run.asleep }

  /** The browser has work to do for the guest. */
  predicate Calls(run: CpuRun) { run.CpuRun? && (run.actions || run.reason == HostService) }

  /** Activation k is not the last: it ran, made progress, left budget, and nobody waits for the host. */
  ghost predicate GoesOn(course: Course, start: Quantum, k: nat) {
    var run := Activation(course, start.consumed, k);
    && run.CpuRun? && !Sleeps(run) && !Calls(run)
    && !Stuck(course, start, k + 1) && ConsumedAt(course, start.consumed, k + 1) < start.budget
  }

  /** What of a quantum running changes. */
  predicate SameQuantum(a: Quantum, b: Quantum) {
    b == a.(consumed := b.consumed, stalled := b.stalled, wakeDelay := b.wakeDelay, terminal := b.terminal)
  }

  /** The result of a quantum that ended with the given activation, its budget used up or not. */
  ghost predicate Concludes(last: CpuRun, stuck: bool, spent: bool,
                            r: Result<Outcome, RunError>, terminal: Option<Outcome>) {
    && (r == Err(MachineFailed) <==> last.Broken?)
    && (r == Err(NoProgress) <==> stuck)
    && (r == Ok(VmInactive) <==> last.Inactive?)
    && (r == Ok(HostServiceRequired) <==> Calls(last) && !stuck)
    && (r == Ok(WfiSleep) <==> Sleeps(last) && !Calls(last) && !stuck)
    && (r == Ok(BudgetReached) <==> last.CpuRun? && spent && !Sleeps(last) && !Calls(last) && !stuck)
    && (terminal == Some(VmInactive) <==> last.Inactive?)
    && (terminal == Some(WfiSleep) <==> Sleeps(last) && !stuck)
    && (terminal == Some(BudgetReached) <==> last.CpuRun? && spent && !Sleeps(last) && !stuck)
    && terminal != Some(HostServiceRequired)
  }

  /** How a quantum ends: every activation but the last goes on, and the last one decides. */
  ghost predicate Ends(start: Quantum, course: Course, q: Quantum, r: Result<Outcome, RunError>, runs: nat) {
    && SameQuantum(start, q) && q.consumed == ConsumedAt(course, start.consumed, runs) >= start.consumed
    && (forall k: nat :: k + 1 < runs ==> GoesOn(course, start, k))
    && (runs == 0 <==> start.terminal.Some? || start.consumed >= start.budget)
    && (start.terminal.Some? ==> q == start && r == Ok(start.terminal.value))
    && (start.terminal.None? && runs == 0 ==> r == Ok(BudgetReached) && q.terminal == Some(BudgetReached))
    && (runs > 0 ==>
          var last := Activation(course, start.consumed, runs - 1);
          && Concludes(last, Stuck(course, start, runs), q.consumed >= q.budget, r, q.terminal)
          && q.wakeDelay == (if Sleeps(last) && r.Ok? then course.wake(q.consumed, runs) else start.wakeDelay)
          && (last.CpuRun? ==> (q.stalled > 0 <==> StandsStill(last))))
  }

  /** How many more activations without a cycle are tolerated. */
  function Patience(q: Quantum): nat { if q.stalled == 0 then 1 else 0 }

  /** The loop's body after one activation: the quantum it leaves, and the result when it was the last. */
  method Settle(q: Quantum, run: CpuRun, course: Course, runs: nat)
    returns (after: Quantum, ended: Option<Result<Outcome, RunError>>)
    requires q.terminal.None?
    ensures SameQuantum(q, after) && after.consumed == q.consumed + if run.CpuRun? then run.consumed else 0
    ensures after.stalled == if !run.CpuRun? then q.stalled else if run.consumed == 0 then q.stalled + 1 else 0
    ensures var stuck := StandsStill(run) && (q.stalled > 0 || run.reason == CycleLimitReached);
            var spent := after.consumed >= after.budget;
            && (ended.None? <==> run.CpuRun? && !Sleeps(run) && !Calls(run) && !stuck && !spent)
            && (ended.Some? ==> Concludes(run, stuck, spent, ended.value, after.terminal))
            && (ended.None? ==> after.terminal.None?)
            && after.wakeDelay == if Sleeps(run) && !stuck then course.wake(after.consumed, runs) else q.wakeDelay
  {
    after := q;
    if run.Broken? { return after, Some(Err(MachineFailed)); }
    if run.Inactive? { return after.(terminal := Some(VmInactive)), Some(Ok(VmInactive)); }
    after := q.(consumed := q.consumed + run.consumed, stalled := if run.consumed == 0 then q.stalled + 1 else 0);
    if after.stalled > 1 || (run.reason == CycleLimitReached && run.consumed == 0) {
      return after, Some(Err(NoProgress));
    }
    if run.reason == Sleep && run.asleep {
      after := after.(wakeDelay := course.wake(after.consumed, runs), terminal := Some(WfiSleep));
    }
    if after.consumed >= after.budget && after.terminal.None? { after := after.(terminal := Some(BudgetReached)); }
    if run.actions || run.reason == HostService { return after, Some(Ok(HostServiceRequired)); }
    ended := if after.terminal.Some? then Some(Ok(after.terminal.value)) else None;
  }

  /** The quantum loop ends for every behaviour of the CPU, within two activations per cycle of budget. */
  method RunQuantum(start: Quantum, course: Course) returns (q: Quantum, r: Result<Outcome, RunError>, runs: nat)
    ensures Ends(start, course, q, r, runs)
    ensures start.consumed < start.budget ==> runs <= 2 * (start.budget - start.consumed) + 1
  {
    q, runs := start, 0;
    if q.terminal.Some? { return q, Ok(q.terminal.value), 0; }
    while q.consumed < q.budget
      invariant q == start.(consumed := ConsumedAt(course, start.consumed, runs), stalled := q.stalled)
      invariant q.consumed >= start.consumed
      invariant forall k: nat :: k < runs ==> GoesOn(course, start, k)
      invariant runs == 0 ==> q.stalled == start.stalled
      invariant runs > 0 ==> q.stalled <= 1 && start.consumed < start.budget && q.consumed < q.budget
      invariant runs > 0 ==> (q.stalled == 1 <==> StandsStill(Activation(course, start.consumed, runs - 1)))
      invariant start.consumed < start.budget ==> runs + Patience(q) <= 2 * (q.consumed - start.consumed) + 1
      decreases q.budget - q.consumed, Patience(q)
    {
      var run := course.run(q.consumed, runs);
      runs := runs + 1;
      var after, ended := Settle(q, run, course, runs);
      q := after;
      if ended.Some? { return q, ended.value, runs; }
    }
    q := q.(terminal := Some(BudgetReached));
    r := Ok(BudgetReached);
  }

  // ------------------------------------------------------------------- the lifecycle

  /** The clock floor left by earlier quanta, and the quantum in progress. */
  datatype Runtime = Runtime(floor: U64, active: Option<Quantum>, running: bool)

  function HostTicks(hostMs: nat): U64 {
    AtMost(hostMs * TICKS_PER_MILLISECOND, U64_MAX)
  }

  function Begin(t: Runtime, hostMs: nat, cycleRate: Rate, tickRate: Rate, budget: Budget): Runtime {
    if t.active.Some? || !t.running then t
    else
      var start := if HostTicks(hostMs) < t.floor then t.floor else HostTicks(hostMs);
      t.(active := Some(Quantum(start, cycleRate, tickRate, budget, 0, 0, 0, None)))
  }

  /** A finished quantum leaves its clock behind; an unfinished one stays. */
  function Finish(t: Runtime): Runtime {
    if t.active.None? || t.active.value.terminal.None? then t
    else t.(active := None, floor := GuestTicks(t.active.value))
  }

  function Abort(t: Runtime): Runtime {
    if t.active.None? then t
    else
      var ticks := GuestTicks(t.active.value);
      t.(active := None, floor := if t.floor < ticks then ticks else t.floor)
  }

  /** The time the guest can observe. */
  function Clock(t: Runtime): U64 {
    if t.active.Some? then GuestTicks(t.active.value) else t.floor
  }

  ghost predicate Coherent(t: Runtime) {
    t.active.Some? ==> t.floor <= t.active.value.start
  }

  // ------------------------------------------------------------------------- waking

  /** Until the next timer, but never longer than the cap. */
  function WakeDelay(due: Option<nat>): (delay: nat)
    ensures delay <= MAX_WAKE_DELAY && (due.Some? ==> delay <= due.value)
    ensures delay == MAX_WAKE_DELAY || (due.Some? && delay == due.value)
  {
    AtMost(if due.None? then U64_MAX else due.value, MAX_WAKE_DELAY)
  }

  /** The milliseconds a sleeping guest asks the host to wait. */
  function RequestedWakeup(q: Quantum, hostMs: nat): nat {
    if q.terminal != Some(WfiSleep) then 0
    else
      var due := AtMost(GuestTicks(q) + q.wakeDelay, U64_MAX);
      var early := Minus(due, HostTicks(hostMs));
      AtMost(Quotient(early + TICKS_PER_MILLISECOND - 1, TICKS_PER_MILLISECOND), U32_MAX)
  }

  /** The host waits just long enough for the guest's wake-up time: not a millisecond more or less. */
  lemma WakeupIsOnTime(q: Quantum, hostMs: nat, ms: nat)
    requires q.terminal == Some(WfiSleep) && ms <= U32_MAX && RequestedWakeup(q, hostMs) < U32_MAX
    requires (hostMs + U32_MAX) * TICKS_PER_MILLISECOND <= U64_MAX
    ensures HostTicks(hostMs + ms) >= AtMost(GuestTicks(q) + q.wakeDelay, U64_MAX) <==> ms >= RequestedWakeup(q, hostMs)
  {
  }

  /** An accepted begin starts a fresh quantum whose clock is the later of the host's time and the old clock. */
  lemma BeginReachesHostTime(t: Runtime, hostMs: nat, cycleRate: Rate, tickRate: Rate, budget: Budget)
    ensures var n := Begin(t, hostMs, cycleRate, tickRate, budget);
            && (n != t <==> t.active.None? && t.running)
            && (n != t ==>
                  && n.active.Some? && n.active.value.consumed == 0 && n.active.value.terminal.None?
                  && n.active.value.budget == budget && n.active.value.cycleRate == cycleRate
                  && n.active.value.tickRate == tickRate && n.active.value.stalled == 0
                  && n.floor == t.floor && n.running
                  && Clock(n) >= AtMost(10_000 * hostMs, U64_MAX) && Clock(n) >= Clock(t)
                  && (Clock(n) == AtMost(10_000 * hostMs, U64_MAX) || Clock(n) == Clock(t)))
  {
    var n := Begin(t, hostMs, cycleRate, tickRate, budget);
    if n.active.Some? && n.active.value.consumed == 0 { ElapsedIsFloor(n.active.value, 0); }
  }

  /** Only a finished quantum ends by finishing, any by aborting; both keep the time the guest has seen. */
  lemma EndingKeepsTheClock(t: Runtime)
    requires Coherent(t)
    ensures Finish(t) != t <==> t.active.Some? && t.active.value.terminal.Some?
    ensures Abort(t) != t <==> t.active.Some?
    ensures Finish(t) != t ==> Finish(t).active.None? && Clock(Finish(t)) == Clock(t) && Finish(t).running == t.running
    ensures Abort(t) != t ==> Abort(t).active.None? && Clock(Abort(t)) == Clock(t) && Abort(t).running == t.running
  {
    if t.active.Some? { TicksMonotone(t.active.value, t.active.value); }
  }

  // --------------------------------------------------------------------------- runs

  datatype Event =
    | BeginQuantum(hostMs: nat, cycleRate: Rate, tickRate: Rate, budget: Budget)
    | RunQuanta(cycles: nat, stalled: nat, wakeDelay: nat, terminal: Option<Outcome>)
    | FinishQuantum
    | AbortQuantum
    | StateChange(running: bool)

  function Next(t: Runtime, e: Event): Runtime {
    match e
    case BeginQuantum(hostMs, cycleRate, tickRate, budget) => Begin(t, hostMs, cycleRate, tickRate, budget)
    case RunQuanta(cycles, stalled, wakeDelay, terminal) =>
      if t.active.None? then t
      else
        var q := t.active.value;
        t.(active := Some(q.(consumed := q.consumed + cycles, stalled := stalled, wakeDelay := wakeDelay,
                             terminal := terminal)))
    case FinishQuantum => Finish(t)
    case AbortQuantum => Abort(t)
    case StateChange(running) => t.(running := running)
  }

  /** No step turns the clock back, whatever the host clock says. */
  lemma NextKeepsTime(t: Runtime, e: Event)
    requires Coherent(t)
    ensures Coherent(Next(t, e)) && Clock(t) <= Clock(Next(t, e))
  {
    var n := Next(t, e);
    if t.active.Some? { TicksMonotone(t.active.value, t.active.value); }
    if n.active.Some? {
      TicksMonotone(n.active.value, n.active.value);
      if t.active.Some? { TicksMonotone(t.active.value, n.active.value); }
    }
  }

  /** A prepared runtime, then one event after another. */
  ghost predicate IsRun(states: seq<Runtime>, events: seq<Event>) {
    && |states| == |events| + 1 && states[0] == Runtime(0, None, false)
    && forall i {:trigger events[i]} :: 0 <= i < |events| ==> states[i + 1] == Next(states[i], events[i])
  }

  lemma {:induction false} RunIsSound(states: seq<Runtime>, events: seq<Event>, i: nat)
    requires IsRun(states, events) && i <= |events|
    ensures Coherent(states[i])
  {
    if i > 0 {
      RunIsSound(states, events, i - 1);
      NextKeepsTime(states[i - 1], events[i - 1]);
    }
  }

  /** Over every sequence of begin, run, finish and abort the guest clock never goes backwards. */
  lemma {:induction false} ClockNeverGoesBack(states: seq<Runtime>, events: seq<Event>, i: nat, j: nat)
    requires IsRun(states, events) && i <= j <= |events|
    ensures Clock(states[i]) <= Clock(states[j])
    decreases j
  {
    if i < j {
      ClockNeverGoesBack(states, events, i, j - 1);
      RunIsSound(states, events, j - 1);
      NextKeepsTime(states[j - 1], events[j - 1]);
    }
  }

  // ---------------------------------------------------------------------- the object

  class BrowserClock {
    var floor: U64
    var active: Option<Quantum>
    var running: bool

    ghost function State(): Runtime
      reads this
    {
      Runtime(floor, active, running)
    }

    constructor ()
      ensures State() == Runtime(0, None, false)
    {
      floor, active, running := 0, None, false;
    }

    method BeginQuantum(hostMs: nat, cycleRate: Rate, tickRate: Rate, budget: Budget) returns (ready: bool)
      requires Coherent(State())
      modifies this
      ensures State() == Begin(old(State()), hostMs, cycleRate, tickRate, budget) && Coherent(State())
      ensures ready <==> old(active).None? && running
      ensures Clock(old(State())) <= Clock(State())
    {
      NextKeepsTime(State(), Event.BeginQuantum(hostMs, cycleRate, tickRate, budget));
      if active.Some? || !running { return false; }
      var start := if HostTicks(hostMs) < floor then floor else HostTicks(hostMs);
      active := Some(Quantum(start, cycleRate, tickRate, budget, 0, 0, 0, None));
      ready := true;
    }

    method FinishQuantum(hostMs: nat) returns (requested: Option<nat>)
      requires Coherent(State())
      modifies this
      ensures State() == Finish(old(State())) && Coherent(State()) && Clock(State()) == Clock(old(State()))
      ensures requested.Some? <==> old(active).Some? && old(active).value.terminal.Some?
      ensures requested.Some? ==> requested.value == RequestedWakeup(old(active).value, hostMs)
    {
      NextKeepsTime(State(), Event.FinishQuantum);
      if active.None? || active.value.terminal.None? { return None; }
      var quantum := active.value;
      active, floor := None, GuestTicks(quantum);
      if quantum.terminal != Some(WfiSleep) { return Some(0); }
      var due := AtMost(floor + quantum.wakeDelay, U64_MAX);
      var early := Minus(due, HostTicks(hostMs));
      requested := Some(AtMost(Quotient(early + TICKS_PER_MILLISECOND - 1, TICKS_PER_MILLISECOND), U32_MAX));
    }

    method AbortQuantum()
      requires Coherent(State())
      modifies this
      ensures State() == Abort(old(State())) && Coherent(State()) && Clock(State()) >= Clock(old(State()))
    {
      NextKeepsTime(State(), Event.AbortQuantum);
      if active.Some? {
        var ticks := GuestTicks(active.value);
        if floor < ticks { floor := ticks; }
        active := None;
      }
    }

    method Advance(m: Machine) returns (r: Result<Outcome, RunError>, ghost runs: nat)
      requires Coherent(State()) && active.Some?
      modifies this
      ensures Coherent(State()) && active.Some? && floor == old(floor) && running == old(running)
      ensures Ends(old(active).value, CourseOf(m, old(active).value), active.value, r, runs)
      ensures Clock(State()) >= Clock(old(State()))
    {
      var q, outcome, activations := RunQuantum(active.value, CourseOf(m, active.value));
      NextKeepsTime(State(), RunQuanta(q.consumed - active.value.consumed, q.stalled, q.wakeDelay, q.terminal));
      active := Some(q);
      r, runs := outcome, activations;
    }
  }
}
