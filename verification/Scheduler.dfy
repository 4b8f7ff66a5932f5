// The counters and priorities of kernel/sched.c: which task schedule picks, and how long a runnable task
// can be kept waiting.

module SchedSpec {
  import opened Kernel

  /** live: there is a task in the slot. */
  datatype Task = Task(live: bool, runnable: bool, counter: int, priority: int)

  type Tasks = ts: seq<Task> | |ts| == NR_TASKS
    witness seq(NR_TASKS, i => Task(false, false, 0, 1))

  ghost predicate Inv(ts: Tasks) {
    forall i: nat | i < NR_TASKS :: ts[i].counter >= 0 && ts[i].priority > 0
  }

  predicate Ready(t: Task) {
    t.live && t.runnable
  }

  /** One step of the scan, at slot i: the largest counter so far and who has it. */
  function Better(ts: Tasks, i: nat, best: (int, nat)): (int, nat)
    requires i < NR_TASKS
  {
    if Ready(ts[i]) && ts[i].counter > best.0 then (ts[i].counter, i) else best
  }

  /** The scan of slots n - 1 down to 1. */
  function Scan(ts: Tasks, n: nat, best: (int, nat)): (int, nat)
    requires n <= NR_TASKS
  {
    if n <= 1 then best else Scan(ts, n - 1, Better(ts, n - 1, best))
  }

  function Best(ts: Tasks): (int, nat) {
    Scan(ts, NR_TASKS, (-1, 0))
  }

  function Recharge(t: Task): Task {
    if t.live then t.(counter := t.counter / 2 + t.priority) else t
  }

  /** All tasks but task 0 get new counters, whether they are runnable or not. */
  function Recharged(ts: Tasks): Tasks {
    seq(NR_TASKS, i requires 0 <= i < NR_TASKS => if i == 0 then ts[0] else Recharge(ts[i]))
  }

  /** schedule: the tasks afterwards and the one picked. */
  function Schedule(ts: Tasks): (Tasks, nat) {
    if Best(ts).0 == 0 then (Recharged(ts), Best(Recharged(ts)).1) else (ts, Best(ts).1)
  }

  lemma {:induction false} ScanIs(ts: Tasks, n: nat, best: (int, nat))
    requires n <= NR_TASKS
    ensures var r := Scan(ts, n, best);
      && r.0 >= best.0
      && (forall i: nat | 0 < i < n && Ready(ts[i]) :: ts[i].counter <= r.0)
      && (r == best || (0 < r.1 < n && Ready(ts[r.1]) && ts[r.1].counter == r.0))
      && (r.0 > best.0 ==> forall i: nat | r.1 < i < n && Ready(ts[i]) :: ts[i].counter < r.0)
      && (r.0 == best.0 ==> r == best)
  {
    if n > 1 { ScanIs(ts, n - 1, Better(ts, n - 1, best)); }
  }

  ghost predicate AnyReady(ts: Tasks) {
    exists i: nat :: 0 < i < NR_TASKS && Ready(ts[i])
  }

  ghost predicate ReadyWithTime(ts: Tasks, i: nat) {
    0 < i < NR_TASKS && Ready(ts[i]) && ts[i].counter > 0
  }

  /** The scan finds a ready task with the most ticks, or -1 and task 0. */
  lemma BestIs(ts: Tasks)
    requires Inv(ts)
    ensures var r := Best(ts);
      && (AnyReady(ts) ==> 0 < r.1 < NR_TASKS && Ready(ts[r.1]) && r.0 == ts[r.1].counter)
      && (!AnyReady(ts) ==> r == (-1, 0))
      && (forall i: nat | 0 < i < NR_TASKS && Ready(ts[i]) :: ts[i].counter <= r.0)
      && (forall i: nat | r.1 < i < NR_TASKS && Ready(ts[i]) :: ts[i].counter < r.0)
  {
    ScanIs(ts, NR_TASKS, (-1, 0));
  }

  lemma RechargedInv(ts: Tasks)
    requires Inv(ts)
    ensures Inv(Recharged(ts)) && (AnyReady(Recharged(ts)) <==> AnyReady(ts))
    ensures forall i: nat | 0 < i < NR_TASKS && ts[i].live :: Recharged(ts)[i].counter > 0
  {
    var rs := Recharged(ts);
    assert forall i: nat | i < NR_TASKS :: Ready(rs[i]) == Ready(ts[i]);
    if AnyReady(ts) {
      var i: nat :| 0 < i < NR_TASKS && Ready(ts[i]);
      assert Ready(rs[i]);
    }
  }

  /** A second scan is the last: schedule picks a ready task with ticks left, and the most of all, the last
      in the table of those, or task 0 if no other is ready. It recharges if and only if some task is ready
      and none has any ticks left. */
  lemma SchedulePicks(ts: Tasks)
    requires Inv(ts)
    ensures var (rs, n) := Schedule(ts);
      && Inv(rs) && Best(rs).0 != 0 && n < NR_TASKS
      && (n == 0 <==> !AnyReady(ts))
      && (n != 0 ==> ReadyWithTime(rs, n))
      && (forall i: nat | 0 < i < NR_TASKS && Ready(rs[i]) :: rs[i].counter <= rs[n].counter)
      && (forall i: nat | n < i < NR_TASKS && Ready(rs[i]) :: rs[i].counter < rs[n].counter)
      && rs == if AnyReady(ts) && !exists i: nat :: ReadyWithTime(ts, i) then Recharged(ts) else ts
  {
    BestIs(ts);
    RechargedInv(ts);
    BestIs(Recharged(ts));
    if i: nat :| ReadyWithTime(ts, i) {
      assert Best(ts).0 > 0;
    } else if AnyReady(ts) {
      assert !ReadyWithTime(ts, Best(ts).1);
    }
  }

  // ---------------------------------------------------------------- runs

  /** Tick: the timer interrupts the current task in user or in kernel code. Block: the current task
      sleeps, stops or ends. Yield: schedule is called for any other reason. */
  datatype Event = Tick(user: bool) | Block(ends: bool) | Yield | Wake(i: nat) | Fork(i: nat) | Nice(increment: int)

  datatype State = State(ts: seq<Task>, current: nat)

  ghost predicate Good(s: State) {
    |s.ts| == NR_TASKS && s.current < NR_TASKS && Inv(s.ts) && s.ts[0].live && s.ts[s.current].live
  }

  function Dispatch(s: State): State
    requires |s.ts| == NR_TASKS
  {
    State(Schedule(s.ts).0, Schedule(s.ts).1)
  }

  function Set(s: State, i: nat, t: Task): State {
    if i < |s.ts| then s.(ts := s.ts[i := t]) else s
  }

  /** The last lines of do_timer. */
  function Ticked(s: State, user: bool): State
    requires |s.ts| == NR_TASKS && s.current < NR_TASKS
  {
    var t := s.ts[s.current];
    if t.counter - 1 > 0 then Set(s, s.current, t.(counter := t.counter - 1))
    else
      var u := Set(s, s.current, t.(counter := 0));
      if user then Dispatch(u) else u
  }

  function Next(s: State, e: Event): State
    requires |s.ts| == NR_TASKS && s.current < NR_TASKS
  {
    var t := s.ts[s.current];
    match e
    case Tick(user) => Ticked(s, user)
    case Block(ends) => Dispatch(if s.current == 0 then s else Set(s, s.current, t.(runnable := false, live := !ends)))
    case Yield => Dispatch(s)
    case Wake(i) => if i < NR_TASKS && s.ts[i].live then Set(s, i, s.ts[i].(runnable := true)) else s
    case Fork(i) =>
      if 0 < i < NR_TASKS && !s.ts[i].live then Set(s, i, Task(true, true, t.priority, t.priority)) else s
    case Nice(increment) =>
      if t.priority - increment > 0 then Set(s, s.current, t.(priority := t.priority - increment)) else s
  }

  lemma NextGood(s: State, e: Event)
    requires Good(s)
    ensures Good(Next(s, e))
  {
    var t := s.ts[s.current];
    match e
    case Tick(user) =>
      SchedulePicks(s.ts[s.current := t.(counter := 0)]);
    case Block(ends) =>
      SchedulePicks(if s.current == 0 then s.ts else s.ts[s.current := t.(runnable := false, live := !ends)]);
    case Yield =>
      SchedulePicks(s.ts);
    case _ =>
  }

  function Run(s: State, run: seq<Event>): State
    requires Good(s)
    decreases |run|
  {
    if run == [] then s
    else NextGood(s, run[0]); Run(Next(s, run[0]), run[1..])
  }

  // ---------------------------------------------------------------- counters stay below twice the priority

  function Max(a: int, b: int): int {
    if a >= b then a else b
  }

  /** Task i has fewer ticks than twice its priority. */
  predicate Bounded(ts: seq<Task>, i: nat) {
    i < |ts| ==> ts[i].counter <= 2 * ts[i].priority - 1
  }

  /** Task i asks for a lower priority. */
  predicate Lowers(s: State, e: Event, i: nat) {
    e.Nice? && e.increment > 0 && s.current == i
  }

  ghost predicate EverLowers(s: State, run: seq<Event>, i: nat)
    requires Good(s)
    decreases |run|
  {
    run != [] && (Lowers(s, run[0], i) || (NextGood(s, run[0]); EverLowers(Next(s, run[0]), run[1..], i)))
  }

  lemma NextBounded(s: State, e: Event, i: nat)
    requires Good(s) && i < NR_TASKS && Bounded(s.ts, i) && !Lowers(s, e, i)
    ensures Bounded(Next(s, e).ts, i)
  {
  }

  /** Each task by itself: as long as it does not lower its priority, its counter stays below twice that,
      whatever the priorities of the others are and whoever is forked, woken or picked meanwhile. */
  lemma {:induction false} CounterBounded(s: State, run: seq<Event>, i: nat)
    requires Good(s) && i < NR_TASKS && Bounded(s.ts, i) && !EverLowers(s, run, i)
    ensures Good(Run(s, run)) && 0 <= Run(s, run).ts[i].counter <= 2 * Run(s, run).ts[i].priority - 1
    decreases |run|
  {
    if run != [] {
      NextGood(s, run[0]);
      NextBounded(s, run[0], i);
      CounterBounded(Next(s, run[0]), run[1..], i);
    }
  }

  /** Lowering the priority breaks the bound exactly when too many ticks are left for the new one. */
  lemma NiceBounded(s: State, increment: int)
    requires Good(s) && Bounded(s.ts, s.current)
    ensures var t := s.ts[s.current];
      Bounded(Next(s, Nice(increment)).ts, s.current)
      <==> t.priority - increment <= 0 || t.counter <= 2 * (t.priority - increment) - 1
  {
  }

  /** What is then in excess of twice the priority is halved by every recharge. */
  lemma ExcessHalves(ts: Tasks, i: nat)
    requires Inv(ts) && 0 < i < NR_TASKS && ts[i].live
    ensures var over := ts[i].counter - 2 * ts[i].priority;
      Recharged(ts)[i].counter - 2 * ts[i].priority <= if over > 0 then over / 2 else 0
  {
  }

  /** No task has or has had, since it was forked, a priority above its peak, nor a counter of twice that. */
  ghost predicate Within(ts: seq<Task>, peaks: seq<int>) {
    |peaks| == |ts| && forall i: nat | i < |ts| :: ts[i].priority <= peaks[i] && ts[i].counter <= 2 * peaks[i] - 1
  }

  function NextPeaks(s: State, e: Event, peaks: seq<int>): seq<int>
    requires |s.ts| == |peaks| == NR_TASKS && s.current < NR_TASKS
  {
    var t := s.ts[s.current];
    match e
    case Fork(i) => if 0 < i < NR_TASKS && !s.ts[i].live then peaks[i := t.priority] else peaks
    case Nice(increment) => peaks[s.current := Max(peaks[s.current], t.priority - increment)]
    case _ => peaks
  }

  /** The highest priority each task has had at the end of a run. */
  function Peaks(s: State, run: seq<Event>, peaks: seq<int>): seq<int>
    requires Good(s) && |peaks| == NR_TASKS
    decreases |run|
  {
    if run == [] then peaks
    else NextGood(s, run[0]); Peaks(Next(s, run[0]), run[1..], NextPeaks(s, run[0], peaks))
  }

  lemma RechargedWithin(ts: Tasks, peaks: seq<int>)
    requires Within(ts, peaks) && Inv(ts)
    ensures Within(Recharged(ts), peaks)
  {
    forall i: nat | i < NR_TASKS
      ensures Recharged(ts)[i].counter <= 2 * peaks[i] - 1 && Recharged(ts)[i].priority <= peaks[i]
    {
      assert ts[i].counter / 2 <= peaks[i] - 1;
    }
  }

  lemma DispatchWithin(s: State, peaks: seq<int>)
    requires |s.ts| == NR_TASKS && Within(s.ts, peaks) && Inv(s.ts)
    ensures Within(Dispatch(s).ts, peaks)
  {
    RechargedWithin(s.ts, peaks);
  }

  lemma NextWithin(s: State, e: Event, peaks: seq<int>)
    requires Good(s) && Within(s.ts, peaks)
    ensures Within(Next(s, e).ts, NextPeaks(s, e, peaks))
  {
    hide Dispatch;
    var t := s.ts[s.current];
    match e
    case Tick(user) =>
      DispatchWithin(Set(s, s.current, t.(counter := 0)), peaks);
    case Block(ends) =>
      DispatchWithin(if s.current == 0 then s else Set(s, s.current, t.(runnable := false, live := !ends)), peaks);
    case Yield =>
      DispatchWithin(s, peaks);
    case _ =>
  }

  /** In every run, with any changes of priority, no counter reaches twice its own task's peak. */
  lemma {:induction false} CountersWithinPeaks(s: State, run: seq<Event>, peaks: seq<int>)
    requires Good(s) && Within(s.ts, peaks)
    ensures Good(Run(s, run)) && Within(Run(s, run).ts, Peaks(s, run, peaks))
    decreases |run|
  {
    if run != [] {
      NextGood(s, run[0]);
      NextWithin(s, run[0], peaks);
      CountersWithinPeaks(Next(s, run[0]), run[1..], NextPeaks(s, run[0], peaks));
    }
  }

  /** What a recharge gives: half of what a task had saved, whether it sleeps or not, on top of its priority. */
  lemma SleeperGains(ts: Tasks, i: nat, j: nat)
    requires Inv(ts) && 0 < i < NR_TASKS && 0 < j < NR_TASKS && ts[i].live && ts[j].live
    ensures var rs := Recharged(ts);
      && rs[i].runnable == ts[i].runnable && rs[i].priority == ts[i].priority
      && ts[i].counter - 1 <= 2 * (rs[i].counter - ts[i].priority) <= ts[i].counter
      && (ts[i].priority == ts[j].priority && ts[i].counter >= ts[j].counter + 2 ==> rs[i].counter > rs[j].counter)
      && (ts[i].counter <= 2 * ts[i].priority - 2 ==> rs[i].counter > ts[i].counter)
    ensures Recharged(ts)[0] == ts[0]
  {
  }

  // ---------------------------------------------------------------- kernel code is not preempted

  /** Events that give up the processor: schedule is called, or a tick of user code uses up the counter. */
  predicate GivesUp(s: State, e: Event) {
    e.Block? || e.Yield? || (e == Tick(true) && s.current < |s.ts| && s.ts[s.current].counter <= 1)
  }

  /** A tick takes one from the counter of the current task, down to 0, and in kernel code does nothing else. */
  lemma TickTakes(s: State, user: bool)
    requires Good(s)
    ensures var t, n := s.ts[s.current], Next(s, Tick(user));
      GivesUp(s, Tick(user)) || (
        && n.current == s.current && |n.ts| == NR_TASKS
        && (forall i: nat | i < NR_TASKS && i != s.current :: n.ts[i] == s.ts[i])
        && n.ts[s.current].live == t.live && n.ts[s.current].runnable == t.runnable
        && n.ts[s.current].priority == t.priority
        && n.ts[s.current].counter == if t.counter > 0 then t.counter - 1 else 0)
    ensures GivesUp(s, Tick(user)) ==> s.ts[s.current].counter <= 1 && user
  {
  }

  ghost predicate NeverGivesUp(s: State, run: seq<Event>)
    requires Good(s)
    decreases |run|
  {
    run == [] || (!GivesUp(s, run[0]) && (NextGood(s, run[0]); NeverGivesUp(Next(s, run[0]), run[1..])))
  }

  /** In every run the current task goes on until it gives up the processor, however many ticks, forks and
      wake-ups there are: kernel code is not preempted. */
  lemma {:induction false} NotPreempted(s: State, run: seq<Event>)
    requires Good(s) && NeverGivesUp(s, run)
    ensures Run(s, run).current == s.current
    decreases |run|
  {
    if run != [] {
      NextGood(s, run[0]);
      NotPreempted(Next(s, run[0]), run[1..]);
    }
  }

  /** When it does, the task that runs next is ready, or it is task 0 because no other is. */
  lemma GivenUp(s: State, e: Event)
    requires Good(s) && GivesUp(s, e)
    ensures var n := Next(s, e);
      |n.ts| == NR_TASKS && n.current < NR_TASKS && (n.current == 0 <==> !AnyReady(n.ts))
      && (n.current != 0 ==> ReadyWithTime(n.ts, n.current))
      && (e.Block? && s.current != 0 ==> n.current != s.current && !n.ts[s.current].runnable)
      && (e.Block? && s.current != 0 ==> n.ts[s.current].live == !e.ends)
  {
    var c, t := s.current, s.ts[s.current];
    match e
    case Tick(_) => Dispatched(s.ts[c := t.(counter := 0)]);
    case Block(ends) =>
      var u := if c == 0 then s.ts else s.ts[c := t.(runnable := false, live := !ends)];
      Dispatched(u);
      assert Next(s, e).ts == Schedule(u).0;
    case Yield => Dispatched(s.ts);
  }

  lemma Dispatched(ts: Tasks)
    requires Inv(ts)
    ensures var (rs, n) := Schedule(ts);
      && (AnyReady(rs) <==> AnyReady(ts)) && (n == 0 <==> !AnyReady(rs)) && (n != 0 ==> ReadyWithTime(rs, n))
      && forall i: nat | i < NR_TASKS :: rs[i].live == ts[i].live && rs[i].runnable == ts[i].runnable
  {
    SchedulePicks(ts);
    RechargedInv(ts);
  }

  /** A new task is ready and has the priority of its parent, and that many ticks; nobody loses any for it. */
  lemma Newcomer(s: State, i: nat)
    requires Good(s) && 0 < i < NR_TASKS && !s.ts[i].live
    ensures var n := Next(s, Fork(i));
      && n.current == s.current && |n.ts| == NR_TASKS && ReadyWithTime(n.ts, i)
      && n.ts[i].counter == n.ts[i].priority == s.ts[s.current].priority
      && forall j: nat | j < NR_TASKS && j != i :: n.ts[j] == s.ts[j]
  {
  }

  /** A task that is woken is ready, with the ticks it had; the current task goes on. */
  lemma Woken(s: State, i: nat)
    requires Good(s) && i < NR_TASKS && s.ts[i].live
    ensures var n := Next(s, Wake(i));
      && n.current == s.current && |n.ts| == NR_TASKS && Ready(n.ts[i])
      && n.ts[i].counter == s.ts[i].counter && n.ts[i].priority == s.ts[i].priority
      && forall j: nat | j < NR_TASKS && j != i :: n.ts[j] == s.ts[j]
  {
  }

  // ---------------------------------------------------------------- progress

  function Sum(ts: seq<Task>): int {
    if ts == [] then 0 else ts[0].counter + Sum(ts[1..])
  }

  lemma {:induction false} SumSet(ts: seq<Task>, i: nat, t: Task)
    requires i < |ts|
    ensures Sum(ts[i := t]) == Sum(ts) + t.counter - ts[i].counter
  {
    if i == 0 {
      assert ts[i := t][1..] == ts[1..];
    } else {
      SumSet(ts[1..], i - 1, t);
      assert ts[i := t][1..] == ts[1..][i - 1 := t];
    }
  }

  lemma {:induction false} SumPositive(ts: seq<Task>)
    requires forall i: nat | i < |ts| :: ts[i].counter >= 0
    ensures Sum(ts) >= 0
  {
    if ts != [] { SumPositive(ts[1..]); }
  }

  /** What a run still has to give away before task k must be picked. */
  function Measure(s: State): int
    requires |s.ts| == NR_TASKS && s.current < NR_TASKS
  {
    2 * Sum(s.ts) + if s.ts[s.current].counter == 0 then 1 else 0
  }

  /** Task k waits through e: it stays ready, is not picked, and nobody is forked. */
  ghost predicate Waits(s: State, e: Event, k: nat)
    requires Good(s)
  {
    !e.Fork? && s.current != k && (NextGood(s, e); Next(s, e).current != k)
  }

  ghost predicate WaitsThrough(s: State, run: seq<Event>, k: nat)
    requires Good(s)
    decreases |run|
  {
    run == [] || (Waits(s, run[0], k) && (NextGood(s, run[0]); WaitsThrough(Next(s, run[0]), run[1..], k)))
  }

  /** The timer interrupts that found user code running. */
  function UserTicks(run: seq<Event>): nat {
    if run == [] then 0 else (if run[0] == Tick(true) then 1 else 0) + UserTicks(run[1..])
  }

  lemma WaitStep(s: State, e: Event, k: nat)
    requires Good(s) && ReadyWithTime(s.ts, k) && Waits(s, e, k)
    ensures Good(Next(s, e))
    ensures ReadyWithTime(Next(s, e).ts, k) && Next(s, e).ts[k].counter == s.ts[k].counter
    ensures Measure(Next(s, e)) + (if e == Tick(true) then 1 else 0) <= Measure(s)
  {
    NextGood(s, e);
    var c, t := s.current, s.ts[s.current];
    match e
    case Tick(user) => TickWait(s, user, k);
    case Block(ends) =>
      var u := if c == 0 then t else t.(runnable := false, live := !ends);
      SumSet(s.ts, c, u);
      assert s.ts[0 := s.ts[0]] == s.ts;
      assert ReadyWithTime(s.ts[c := u], k);
      SchedulePicks(s.ts[c := u]);
    case Yield =>
      SchedulePicks(s.ts);
    case Wake(i) =>
      if i < NR_TASKS { SumSet(s.ts, i, s.ts[i].(runnable := true)); }
    case Nice(increment) =>
      SumSet(s.ts, c, t.(priority := t.priority - increment));
  }

  lemma TickWait(s: State, user: bool, k: nat)
    requires Good(s) && ReadyWithTime(s.ts, k) && Waits(s, Tick(user), k)
    ensures Good(Ticked(s, user))
    ensures ReadyWithTime(Ticked(s, user).ts, k) && Ticked(s, user).ts[k].counter == s.ts[k].counter
    ensures Measure(Ticked(s, user)) + (if user then 1 else 0) <= Measure(s)
  {
    NextGood(s, Tick(user));
    var c, t := s.current, s.ts[s.current];
    var u := t.(counter := Max(t.counter - 1, 0));
    SumSet(s.ts, c, u);
    assert ReadyWithTime(s.ts[c := u], k);
    SchedulePicks(s.ts[c := u]);
  }

  /** A ready task with ticks left is picked before the next recharge, and soon: while it waits its
      counter is not touched, and at most twice as many ticks of user code go by as all tasks have left,
      and one. */
  lemma {:induction false} PickedInTime(s: State, run: seq<Event>, k: nat)
    requires Good(s) && ReadyWithTime(s.ts, k) && WaitsThrough(s, run, k)
    ensures UserTicks(run) <= 2 * Sum(s.ts) + 1
    ensures Good(Run(s, run))
    ensures ReadyWithTime(Run(s, run).ts, k) && Run(s, run).ts[k].counter == s.ts[k].counter
  {
    WaitRun(s, run, k);
    SumPositive(Run(s, run).ts);
  }

  lemma {:induction false} WaitRun(s: State, run: seq<Event>, k: nat)
    requires Good(s) && ReadyWithTime(s.ts, k) && WaitsThrough(s, run, k)
    ensures Good(Run(s, run)) && UserTicks(run) + Measure(Run(s, run)) <= Measure(s)
    ensures ReadyWithTime(Run(s, run).ts, k) && Run(s, run).ts[k].counter == s.ts[k].counter
    decreases |run|
  {
    if run != [] {
      NextGood(s, run[0]);
      WaitStep(s, run[0], k);
      WaitRun(Next(s, run[0]), run[1..], k);
    }
  }
}

module Scheduler {
  import opened Kernel
  import opened SchedSpec

  class TaskSwitch {
    const task: array<Task>
    var current: nat

    ghost predicate Valid()
      reads this, task
    {
      task.Length == NR_TASKS && Good(Abs())
    }

    ghost function Abs(): State
      reads this, task
    {
      State(task[..], current)
    }

    constructor (priority: int)
      requires priority > 0
      ensures Valid() && fresh(task)
    {
      task := new Task[NR_TASKS](i => Task(i == 0, i == 0, priority, priority));
      current := 0;
    }

    /** schedule, from the scan on. It ends after two scans at most. */
    method Schedule()
      requires Valid()
      modifies this, task
      ensures Valid() && Abs() == Dispatch(old(Abs()))
    {
      SchedulePicks(task[..]);
      RechargedInv(task[..]);
      ghost var start, scans: nat := task[..], 0;
      var next: nat := 0;
      while true
        invariant current == old(current) && next < NR_TASKS
        invariant task[..] == if scans == 0 then start else Recharged(start)
        invariant scans > 0 ==> scans == 1 && Best(start).0 == 0
        decreases 1 - scans
      {
        var c := -1;
        next := 0;
        var i := NR_TASKS - 1;
        while i > 0
          invariant 0 <= i < NR_TASKS && next < NR_TASKS
          invariant Scan(task[..], i + 1, (c, next)) == Best(task[..])
        {
          if Ready(task[i]) && task[i].counter > c {
            c, next := task[i].counter, i;
          }
          i := i - 1;
        }
        if c != 0 {
          break;
        }
        RechargeAll();
        scans := scans + 1;
      }
      current := next;
    }

    method RechargeAll()
      requires task.Length == NR_TASKS
      modifies task
      ensures task[..] == Recharged(old(task[..]))
    {
      var i := NR_TASKS - 1;
      while i > 0
        invariant 0 <= i < NR_TASKS
        invariant forall j: nat | j < NR_TASKS :: task[j] == if j > i then Recharge(old(task[j])) else old(task[j])
      {
        task[i] := Recharge(task[i]);
        i := i - 1;
      }
    }

    /** The last lines of do_timer; user tells whether user code was interrupted. */
    method TimerTick(user: bool)
      requires Valid()
      modifies this, task
      ensures Valid() && Abs() == Next(old(Abs()), Tick(user))
    {
      NextGood(Abs(), Tick(user));
      task[current] := task[current].(counter := task[current].counter - 1);
      if task[current].counter > 0 {
        assert Abs() == Next(old(Abs()), Tick(user));
        return;
      }
      task[current] := task[current].(counter := 0);
      assert task[..] == old(task[..])[old(current) := old(task[current]).(counter := 0)];
      if user {
        Schedule();
      }
    }

    /** sys_nice; a negative increment raises the priority without limit. */
    method SysNice(increment: int)
      requires Valid()
      modifies task
      ensures Valid() && Abs() == Next(old(Abs()), Nice(increment))
    {
      if task[current].priority - increment > 0 {
        task[current] := task[current].(priority := task[current].priority - increment);
      }
    }
  }
}
