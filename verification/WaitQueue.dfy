// Sleeping and waking of kernel/sched.c. A wait queue is one head pointer; the rest of it are the
// locals tmp of the calls of __sleep_on in progress. Code between two calls of schedule is atomic.

module WaitSpec {
  import opened Kernel
  import opened Sequences

  /** The sleepers of one queue, the last to come first, and the state of every task. */
  datatype Waiting = Waiting(queue: seq<nat>, state: seq<TaskState>)

  ghost predicate Inv(w: Waiting) {
    && |w.state| == NR_TASKS && Distinct(w.queue)
    && forall i: nat | i < |w.queue| :: 0 < w.queue[i] < NR_TASKS && Sleeper(w.state[w.queue[i]])
  }

  predicate Sleeper(s: TaskState) {
    s != Zombie && s != Stopped
  }

  /** Join: a task starts to sleep. Resume: the scheduler lets a runnable sleeper go on. Rouse: a
      sleeper becomes runnable for any other reason, as a signal or a timeout. */
  datatype Step = Join(c: nat, how: TaskState) | Resume(c: nat) | WakeUp | Rouse(c: nat)

  ghost predicate Enabled(w: Waiting, e: Step) {
    match e
    case Join(c, how) => 0 < c < NR_TASKS && c !in w.queue && (how == Interruptible || how == Uninterruptible)
    case Resume(c) => c in w.queue && c < |w.state| && w.state[c] == Running
    case WakeUp => true
    case Rouse(c) => c in w.queue
  }

  function Roused(w: Waiting): Waiting {
    if w.queue == [] || w.queue[0] >= |w.state| then w else w.(state := w.state[w.queue[0] := Running])
  }

  /** A sleeper that runs leaves if it is the head, and then the next one is made runnable. Otherwise
      it makes the head runnable and sleeps on. */
  function Next(w: Waiting, e: Step): Waiting {
    match e
    case Join(c, how) => Waiting([c] + w.queue, if c < |w.state| then w.state[c := how] else w.state)
    case WakeUp => Roused(w)
    case Rouse(c) => w.(state := if c < |w.state| then w.state[c := Running] else w.state)
    case Resume(c) =>
      if w.queue != [] && w.queue[0] == c then Roused(w.(queue := w.queue[1..]))
      else
        var r := Roused(w);
        r.(state := if c < |r.state| then r.state[c := Uninterruptible] else r.state)
  }

  lemma NextInv(w: Waiting, e: Step)
    requires Inv(w) && Enabled(w, e)
    ensures Inv(Next(w, e))
  {
    match e
    case Join(c, how) => JoinInv(w, c, how);
    case _ =>
  }

  lemma JoinInv(w: Waiting, c: nat, how: TaskState)
    requires Inv(w) && Enabled(w, Join(c, how))
    ensures Inv(Next(w, Join(c, how)))
  {
    var q := [c] + w.queue;
    assert forall i: nat | 0 < i < |q| :: q[i] == w.queue[i - 1];
  }

  /** What a run leaves behind: the state, and who left the queue, in order. */
  datatype History = History(w: Waiting, left: seq<nat>)

  ghost predicate Possible(w: Waiting, run: seq<Step>)
    decreases |run|
  {
    run == [] || (Enabled(w, run[0]) && Possible(Next(w, run[0]), run[1..]))
  }

  function Run(w: Waiting, run: seq<Step>): History
    decreases |run|
  {
    if run == [] then History(w, [])
    else
      var h := Run(Next(w, run[0]), run[1..]);
      if run[0].Resume? && w.queue != [] && w.queue[0] == run[0].c then History(h.w, [run[0].c] + h.left) else h
  }

  lemma {:induction false} RunInv(w: Waiting, run: seq<Step>)
    requires Inv(w) && Possible(w, run)
    ensures Inv(Run(w, run).w)
    decreases |run|
  {
    if run != [] {
      NextInv(w, run[0]);
      RunInv(Next(w, run[0]), run[1..]);
    }
  }

  ghost predicate NoJoin(run: seq<Step>) {
    forall i: nat | i < |run| :: !run[i].Join?
  }

  /** The last to come is the first to go: whoever joins leaves before all who sleep already. */
  lemma LastFirst(w: Waiting, c: nat, how: TaskState, run: seq<Step>)
    requires Possible(w, [Join(c, how)] + run) && NoJoin(run)
    ensures var left := Run(w, [Join(c, how)] + run).left;
      left != [] ==> left[0] == c && left[1..] + Run(w, [Join(c, how)] + run).w.queue == w.queue
  {
    var all := [Join(c, how)] + run;
    assert all[1..] == run;
    LeaveInOrder(Next(w, Join(c, how)), run);
    var left := Run(w, all).left;
    assert left != [] ==> (left + Run(w, all).w.queue)[1..] == left[1..] + Run(w, all).w.queue;
  }

  /** If nobody joins, the sleepers leave in the order of the queue and nobody else does. */
  lemma {:induction false} LeaveInOrder(w: Waiting, run: seq<Step>)
    requires Possible(w, run) && NoJoin(run)
    ensures Run(w, run).left + Run(w, run).w.queue == w.queue
    decreases |run|
  {
    if run != [] {
      LeaveInOrder(Next(w, run[0]), run[1..]);
    }
  }

  predicate HeadAwake(w: Waiting) {
    w.queue == [] || (w.queue[0] < |w.state| && w.state[w.queue[0]] == Running)
  }

  ghost predicate SomeAwake(w: Waiting) {
    w.queue == [] || exists i: nat :: i < |w.queue| && w.queue[i] < |w.state| && w.state[w.queue[i]] == Running
  }

  /** Runnable sleepers. */
  function Awake(w: Waiting): (n: nat)
    ensures n <= |w.queue|
    decreases |w.queue|
  {
    if w.queue == [] then 0
    else (if w.queue[0] < |w.state| && w.state[w.queue[0]] == Running then 1 else 0) + Awake(w.(queue := w.queue[1..]))
  }

  /** A change of the state of tasks outside the queue does not count. */
  lemma {:induction false} AwakeFrame(w: Waiting, c: nat, s: TaskState)
    requires c < |w.state| && c !in w.queue
    ensures Awake(w.(state := w.state[c := s])) == Awake(w)
    decreases |w.queue|
  {
    if w.queue != [] {
      AwakeFrame(w.(queue := w.queue[1..]), c, s);
      assert w.queue[0] != c;
    }
  }

  lemma {:induction false} AwakeSet(w: Waiting, c: nat, s: TaskState)
    requires c < |w.state| && c in w.queue && Distinct(w.queue)
    ensures Awake(w.(state := w.state[c := s]))
         == Awake(w) + (if s == Running then 1 else 0) - (if w.state[c] == Running then 1 else 0)
    decreases |w.queue|
  {
    var rest := w.(queue := w.queue[1..]);
    if w.queue[0] == c {
      assert c !in rest.queue;
      AwakeFrame(rest, c, s);
    } else {
      AwakeSet(rest, c, s);
    }
  }

  /** How many steps of sleepers there can still be. */
  function Measure(w: Waiting): nat {
    |w.queue| + Awake(w) + if HeadAwake(w) then 0 else 1
  }

  lemma ResumeStep(w: Waiting, c: nat)
    requires Inv(w) && Enabled(w, Resume(c))
    ensures Measure(Next(w, Resume(c))) < Measure(w)
    ensures HeadAwake(Next(w, Resume(c)))
  {
    if w.queue[0] == c {
      var rest := w.(queue := w.queue[1..]);
      NextInv(w, Resume(c));
      if rest.queue != [] {
        assert Distinct(rest.queue) && rest.queue[0] in rest.queue && rest.queue[0] == w.queue[1];
        AwakeSet(rest, rest.queue[0], Running);
      }
    } else {
      var r := Roused(w);
      assert w.queue[0] in w.queue;
      AwakeSet(w, w.queue[0], Running);
      AwakeSet(r, c, Uninterruptible);
    }
  }

  ghost predicate OnlyResumes(run: seq<Step>) {
    forall i: nat | i < |run| :: run[i].Resume?
  }

  lemma {:induction false} ResumesBounded(w: Waiting, run: seq<Step>)
    requires Inv(w) && Possible(w, run) && OnlyResumes(run) && SomeAwake(w)
    ensures |run| + Measure(Run(w, run).w) <= Measure(w)
    ensures SomeAwake(Run(w, run).w)
    decreases |run|
  {
    if run != [] {
      NextInv(w, run[0]);
      ResumeStep(w, run[0].c);
      ResumesBounded(Next(w, run[0]), run[1..]);
    }
  }

  /** One runnable sleeper is enough for all. Whatever order the scheduler chooses, at most 2n + 1
      steps of the n sleepers follow; as long as one still sleeps some sleeper can take a step; so a run
      that cannot be continued has let every sleeper go, in the order of the queue. */
  lemma DrainsCompletely(w: Waiting, run: seq<Step>)
    requires Inv(w) && Possible(w, run) && OnlyResumes(run) && SomeAwake(w)
    ensures |run| <= 2 * |w.queue| + 1
    ensures (forall c: nat :: !Enabled(Run(w, run).w, Resume(c))) ==> Run(w, run).left == w.queue
  {
    ResumesBounded(w, run);
    LeaveInOrder(w, run);
    hide SomeAwake, Inv, Possible, Run, Enabled, Distinct, Next;
    if Run(w, run).w.queue != [] { CanGoOn(Run(w, run).w); }
    if Run(w, run).w.queue == [] { assert Run(w, run).left + [] == Run(w, run).left; }
  }

  lemma CanGoOn(w: Waiting)
    requires SomeAwake(w) && w.queue != []
    ensures exists c: nat :: Enabled(w, Resume(c))
  {
    var i: nat :| i < |w.queue| && w.queue[i] < |w.state| && w.state[w.queue[i]] == Running;
    assert Enabled(w, Resume(w.queue[i]));
  }

  /** One wake_up makes the head runnable, so it is the runnable sleeper needed. Later wake-ups and
      signals do no harm: without joins there is always a runnable head. */
  lemma {:induction false} WakeUpLasts(w: Waiting, run: seq<Step>)
    requires Inv(w) && Possible(w, [WakeUp] + run) && NoJoin(run)
    ensures HeadAwake(Run(w, [WakeUp] + run).w) && SomeAwake(Run(w, [WakeUp] + run).w)
  {
    var all := [WakeUp] + run;
    assert all[1..] == run;
    NextInv(w, WakeUp);
    StaysAwake(Roused(w), run);
  }

  lemma {:induction false} StaysAwake(w: Waiting, run: seq<Step>)
    requires Inv(w) && HeadAwake(w) && Possible(w, run) && NoJoin(run)
    ensures HeadAwake(Run(w, run).w)
    decreases |run|
  {
    if run != [] {
      NextInv(w, run[0]);
      if run[0].Resume? { ResumeStep(w, run[0].c); }
      StaysAwake(Next(w, run[0]), run[1..]);
    }
  }
}

module WaitQueue {
  import opened Kernel
  import opened WaitSpec
  import opened Sequences

  class Queue {
    const state: array<TaskState>
    /** The local tmp of a task inside __sleep_on. */
    const tmp: array<int>
    const sleeping: array<bool>
    var head: int
    ghost var queue: seq<nat>

    /** Following tmp from the head gives each sleeper exactly once. */
    ghost predicate Valid()
      reads this, state, tmp, sleeping
    {
      && state.Length == tmp.Length == sleeping.Length == NR_TASKS
      && Inv(Abs())
      && head == At(queue, 0)
      && (forall i: nat | i < |queue| :: tmp[queue[i]] == At(queue, i + 1))
      && (forall c: nat | c < NR_TASKS :: sleeping[c] <==> c in queue)
    }

    ghost function Abs(): Waiting
      reads this, state
    {
      Waiting(queue, state[..])
    }

    constructor ()
      ensures Valid() && queue == []
      ensures fresh(state) && fresh(tmp) && fresh(sleeping)
    {
      state := new TaskState[NR_TASKS](i => Running);
      tmp := new int[NR_TASKS](i => NULL);
      sleeping := new bool[NR_TASKS](i => false);
      head := NULL;
      queue := [];
    }

    /** __sleep_on up to schedule; ok is false in the panic of task 0. */
    method SleepOn(current: nat, how: TaskState) returns (ok: bool)
      requires Valid() && current < NR_TASKS && !sleeping[current]
      requires how == Interruptible || how == Uninterruptible
      modifies this, state, tmp, sleeping
      ensures Valid() && ok == (current != 0)
      ensures Abs() == if ok then Next(old(Abs()), Join(current, how)) else old(Abs())
      ensures ok ==> state[current] == how && queue == [current] + old(queue)
    {
      if current == 0 {
        return false;
      }
      NextInv(Abs(), Join(current, how));
      ok := true;
      tmp[current] := head;
      head := current;
      sleeping[current] := true;
      state[current] := how;
      queue := [current] + queue;
      assert Abs() == Next(old(Abs()), Join(current, how));
      forall i: nat | i < |queue| ensures tmp[queue[i]] == At(queue, i + 1) {
        if i > 0 { assert queue[i] == old(queue)[i - 1]; }
      }
    }

    /** __sleep_on from schedule on: either back to it, or out. The warning is never given, and only
        the head leaves. */
    method Resume(current: nat) returns (left: bool, warning: bool)
      requires Valid() && Enabled(Abs(), WaitSpec.Resume(current))
      modifies this, state, sleeping
      ensures Valid() && Abs() == Next(old(Abs()), WaitSpec.Resume(current))
      ensures !warning
      ensures left == (old(queue)[0] == current)
    {
      NextInv(Abs(), WaitSpec.Resume(current));
      warning := false;
      if head != NULL && head != current {
        state[head] := Running;
        state[current] := Uninterruptible;
        return false, false;
      }
      if head == NULL {
        warning := true;
      }
      left := true;
      sleeping[current] := false;
      head := tmp[current];
      queue := queue[1..];
      if head != NULL {
        state[head] := Running;
      }
    }

    /** The warnings about stopped and dead tasks are never given. */
    method WakeUp() returns (warning: bool)
      requires Valid()
      modifies state
      ensures Valid() && Abs() == Next(old(Abs()), WaitSpec.WakeUp)
      ensures !warning
    {
      NextInv(Abs(), WaitSpec.WakeUp);
      warning := false;
      if head != NULL {
        assert queue[0] == head;
        warning := state[head] == Stopped || state[head] == Zombie;
        state[head] := Running;
      }
    }
  }
}
