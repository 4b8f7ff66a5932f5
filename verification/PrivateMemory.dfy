// The specification of paging: one private array of pages per task. No sharing, no swapping,
// no page tables, no reference counts.

module PrivateMemory {
  import opened Kernel
  import opened VmState
  import opened VmSteps

  /** mem holds the 64 MB of task t from page t * TASK_PAGES on. */
  datatype PrivateData = Private(mem: seq<Page>, programs: seq<Program>)
  type Private = s: PrivateData | |s.mem| == VM_SIZE && |s.programs| == NR_TASKS
    witness Private(seq(VM_SIZE, _ => ZeroPage()), seq(NR_TASKS, _ => Program(None, None)))

  /** Boot is the fork of task 0; Give is how exec hands a task the pages of its arguments. */
  datatype Op =
    | Load(t: nat, lp: nat, o: nat, users: nat)
    | Store(t: nat, lp: nat, o: nat, b: byte, users: nat)
    | Fork(t: nat, child: nat, dirs: nat)
    | Boot(child: nat, dirtyBits: seq<bool>)
    | Exec(t: nat, program: Program)
    | Give(t: nat, lp: nat, page: Page)
    | Exit(t: nat)
    | PageOut

  /** Byte: what a load read. Image: the pages of the kernel a first fork got. NoMemory: a faulting task is
      killed, a fork or exec fails. Stalled: the fault needs a free page, because the page it looked at
      might be swapped away. Refused: the kernel would not get such a request. */
  datatype Outcome = Done | Byte(b: byte) | Image(pages: seq<Page>) | NoMemory | Stalled | Refused

  /** The task whose memory may change. */
  function Actor(op: Op): nat {
    match op
    case Load(t, _, _, _) => t
    case Store(t, _, _, _, _) => t
    case Fork(_, c, _) => c
    case Boot(c, _) => c
    case Exec(t, _) => t
    case Give(t, _, _) => t
    case Exit(t) => t
    case PageOut => 0
  }

  /** What a task slot without program looks like. */
  const IDLE: Program := Program(None, None)

  function Fresh(s: Private, t: nat, g: Program): Private
    requires t < NR_TASKS
  {
    Private(seq(VM_SIZE, v requires 0 <= v < VM_SIZE =>
              if v / TASK_PAGES == t then Content(g, v % TASK_PAGES) else s.mem[v]),
            s.programs[t := g])
  }

  /** The child gets the parent's first `dirs` directory slots, and the parent's program for the rest. */
  function Forked(s: Private, t: nat, c: nat, dirs: nat): Private
    requires t < NR_TASKS && c < NR_TASKS
  {
    Private(seq(VM_SIZE, v requires 0 <= v < VM_SIZE =>
              if v / TASK_PAGES != c then s.mem[v]
              else if v % TASK_PAGES < dirs * 1024 then s.mem[t * TASK_PAGES + v % TASK_PAGES]
              else Content(s.programs[t], v % TASK_PAGES)),
            s.programs[c := s.programs[t]])
  }

  /** The child of task 0 gets 160 pages of the kernel. */
  function Booted(s: Private, c: nat, pages: seq<Page>): Private
    requires c < NR_TASKS && |pages| == 160
  {
    s.(mem := seq(VM_SIZE, v requires 0 <= v < VM_SIZE =>
                if v / TASK_PAGES == c && v % TASK_PAGES < 160 then pages[v % TASK_PAGES] else s.mem[v]))
  }

  predicate Wellformed(op: Op) {
    match op
    case Load(t, lp, o, _) => 0 < t < NR_TASKS && lp < TASK_PAGES && o < PAGE_SIZE
    case Store(t, lp, o, _, _) => 0 < t < NR_TASKS && lp < TASK_PAGES && o < PAGE_SIZE
    case Fork(t, c, dirs) => 0 < t < NR_TASKS && 0 < c < NR_TASKS && t != c && dirs <= TASK_DIRS
    case Boot(c, dirtyBits) => 0 < c < NR_TASKS && |dirtyBits| == 160
    case Exec(t, _) => 0 < t < NR_TASKS
    case Give(t, lp, _) => 0 < t < NR_TASKS && lp < TASK_PAGES
    case Exit(t) => 0 < t < NR_TASKS
    case PageOut => true
  }

  /** What an operation that was carried out does to the private memories. */
  function Effect(s: Private, op: Op): Private
    requires Wellformed(op) && !op.Boot?
  {
    match op
    case Load(_, _, _, _) => s
    case Store(t, lp, o, b, _) =>
      var v := t * TASK_PAGES + lp;
      s.(mem := s.mem[v := s.mem[v][o := b]])
    case Fork(t, c, dirs) => Forked(s, t, c, dirs)
    case Exec(t, g) => Fresh(s, t, g)
    case Give(t, lp, x) => s.(mem := s.mem[t * TASK_PAGES + lp := x])
    case Exit(t) => Fresh(s, t, IDLE)
    case PageOut => s
  }

  /** One step: carried out or not at all; a load returns the byte the task's memory holds. Only faults can
      stall, only faults, forks and exec's last part can lack memory; the rest is always carried out. */
  ghost predicate Step(s: Private, op: Op, r: Outcome, s': Private) {
    match r
    case Done => Wellformed(op) && !op.Load? && !op.Boot? && s' == Effect(s, op)
    case Byte(b) => Wellformed(op) && op.Load? && s' == s && b == s.mem[op.t * TASK_PAGES + op.lp][op.o]
    case Image(pages) => Wellformed(op) && op.Boot? && |pages| == 160 && s' == Booted(s, op.child, pages)
    case NoMemory => s' == s && (op.Load? || op.Store? || op.Fork? || op.Boot? || op.Give?)
    case Stalled => s' == s && (op.Load? || op.Store?)
    case Refused => s' == s && (!Wellformed(op) || op.Fork? || op.Boot? || op.Give?)
  }

  /** A whole run, from s to s'. */
  ghost predicate Run(s: Private, ops: seq<Op>, rs: seq<Outcome>, s': Private)
    requires |rs| == |ops|
    decreases |ops|
  {
    if ops == [] then s' == s
    else
      var k := |ops| - 1;
      exists m: Private :: Run(s, ops[..k], rs[..k], m) && Step(m, ops[k], rs[k], s')
  }

  /** Memory is private: whatever other tasks do, however much is shared or swapped underneath, a task
      that does nothing and is not forked into keeps its memory. */
  lemma {:induction false} Isolation(s: Private, ops: seq<Op>, rs: seq<Outcome>, s': Private, u: nat)
    requires |rs| == |ops| && Run(s, ops, rs, s') && 0 < u < NR_TASKS
    requires forall i: nat | i < |ops| :: Actor(ops[i]) != u
    ensures forall v: nat | v < VM_SIZE && v / TASK_PAGES == u :: s'.mem[v] == s.mem[v]
    ensures s'.programs[u] == s.programs[u]
    decreases |ops|
  {
    if ops != [] {
      var k := |ops| - 1;
      var m: Private :| Run(s, ops[..k], rs[..k], m) && Step(m, ops[k], rs[k], s');
      Isolation(s, ops[..k], rs[..k], m, u);
      StepIsolation(m, ops[k], rs[k], s', u);
    }
  }

  lemma StepIsolation(s: Private, op: Op, r: Outcome, s': Private, u: nat)
    requires Step(s, op, r, s') && 0 < u < NR_TASKS && Actor(op) != u
    ensures forall v: nat | v < VM_SIZE && v / TASK_PAGES == u :: s'.mem[v] == s.mem[v]
    ensures s'.programs[u] == s.programs[u]
  {
    if r.Done? && (op.Store? || op.Give?) { Place(op.t, op.lp); }
  }

  lemma ForkedPage(s: Private, t: nat, c: nat, lp: nat)
    requires t < NR_TASKS && c < NR_TASKS && lp < TASK_PAGES
    ensures Forked(s, t, c, TASK_DIRS).mem[c * TASK_PAGES + lp] == s.mem[t * TASK_PAGES + lp]
  {
    Place(c, lp);
    var v := c * TASK_PAGES + lp;
    assert v % TASK_PAGES < TASK_DIRS * 1024;
  }

  /** After a fork of the whole space, whatever others do, the child reads what the parent held then. */
  lemma ForkSnapshot(s: Private, t: nat, c: nat, f: Private, ops: seq<Op>, rs: seq<Outcome>, s': Private, lp: nat)
    requires Wellformed(Fork(t, c, TASK_DIRS)) && Step(s, Fork(t, c, TASK_DIRS), Done, f)
    requires |rs| == |ops| && Run(f, ops, rs, s') && forall i: nat | i < |ops| :: Actor(ops[i]) != c
    requires lp < TASK_PAGES
    ensures s'.mem[c * TASK_PAGES + lp] == s.mem[t * TASK_PAGES + lp]
  {
    Place(c, lp);
    ForkedPage(s, t, c, lp);
    Isolation(f, ops, rs, s', c);
  }
}
