// The paging code refines PrivateMemory: over every run of loads, stores, forks, execs, exits and
// page-outs each task sees exactly its private memory.

module TaskMemory {
  import opened Kernel
  import opened VmState
  import opened VmSteps
  import opened VmRelations
  import opened VmRoom
  import opened VmSweep
  import opened PrivateMemory
  import opened PagedMemory

  /** The private memories that a paging state stands for. */
  ghost function Seen(m: Vm): Private {
    Private(seq(VM_SIZE, v requires 0 <= v < VM_SIZE => View(m, v)), m.programs)
  }

  lemma SamePrivate(m: Vm, n: Vm)
    requires SameViews(m, n) && n.programs == m.programs
    ensures Seen(n) == Seen(m)
  {
    assert forall v: nat | v < VM_SIZE :: View(m, v) == View(n, v);
  }

  // ---------------------------------------------------------------- when requests must succeed

  ghost predicate IdleSlot(m: Vm, c: nat)
    requires c < NR_TASKS
  {
    NoTablesOf(m, c) && m.programs[c] == IDLE
  }

  /** The paging state and the cursor of swap_out. */
  datatype Machine = Machine(m: Vm, d: nat, e: int)

  ghost predicate Sound(k: Machine) { Inv(k.m) && IsCursor(k.d, k.e) }

  ghost function StateOf(mem: Memory): Machine
    requires mem.Wired()
    reads mem, mem.memMap, mem.phys, mem.pgDir, mem.swapBitmap, mem.swapDev, mem.tasks
  {
    Machine(mem.Abs(), mem.dirEntry, mem.pageEntry)
  }

  /** A fault on linear page v of task t reads a value that get_free_page may make stale: the sharing of a
      page when the table is missing, or the copying of a page that could be swapped. */
  ghost predicate LoadHazard(m: Vm, t: nat, v: nat, users: nat)
    requires t < NR_TASKS && v < VM_SIZE
  {
    m.dir[v / 1024].None? && Shares(m, t, v, users) && !SomeFree(m)
  }

  ghost predicate StoreHazard(m: Vm, t: nat, v: nat, users: nat)
    requires t < NR_TASKS && v < VM_SIZE
  {
    match m.pte[v]
    case Absent => Shares(m, t, v, users) && Room(m) < if m.dir[v / 1024].Some? then 1 else 2
    case Present(_, rw, _) => !rw && !CountOne(m, v) && !Pinned(m, v) && !SomeFree(m)
    case Swapped(_) => false
  }

  /** The store of a task at v fails, because get_free_page returns 0 on the way. */
  ghost predicate StoreFails(k: Machine, t: nat, v: nat, users: nat)
    requires Sound(k) && t < NR_TASKS && v < VM_SIZE
  {
    match k.m.pte[v]
    case Present(_, rw, _) => !rw && !CountOne(k.m, v) && GetPage(k.m, k.d, k.e).page == 0
    case _ => FaultFails(k.m, k.d, k.e, t, v, users)
  }

  /** r is the answer to op in state k. Memory is lacking only where get_free_page returns 0; in particular
      two free pages suffice for any fault, and a fork that fits does not fail. */
  ghost predicate Answers(k: Machine, op: Op, r: Outcome)
    requires Sound(k)
  {
    if !Wellformed(op) then r == Refused
    else
      match op
      case Load(t, lp, _, users) =>
        Place(t, lp);
        var v := t * TASK_PAGES + lp;
        && (Room(k.m) >= 2 ==> r.Byte?)
        && if LoadHazard(k.m, t, v, users) then r == Stalled
           else if FaultFails(k.m, k.d, k.e, t, v, users) then r == NoMemory
           else r.Byte?
      case Store(t, lp, _, _, users) =>
        Place(t, lp);
        var v := t * TASK_PAGES + lp;
        && (Room(k.m) >= 2 ==> r == Done)
        && if StoreHazard(k.m, t, v, users) then r == Stalled
           else if StoreFails(k, t, v, users) then r == NoMemory
           else r == Done
      case Fork(t, c, dirs) =>
        && (r == Refused <==> !IdleSlot(k.m, c))
        && (IdleSlot(k.m, c) && Fits(k.m, t * TASK_DIRS, dirs) ==> r == Done)
        && (r == NoMemory ==> Starved(SetProgram(k.m, c, k.m.programs[t]), t * TASK_DIRS, c * TASK_DIRS, dirs))
      case Boot(c, _) =>
        if !IdleSlot(k.m, c) then r == Refused
        else if GetPage(k.m, k.d, k.e).page == 0 then r == NoMemory && !SomeFree(k.m)
        else r.Image? && r.pages == k.m.frames[..160]
      case Give(t, lp, x) =>
        Place(t, lp);
        var v := t * TASK_PAGES + lp;
        if k.m.pte[v] != Absent then r == Refused
        else if NoPageFor(k.m, k.d, k.e, v, x) then r == NoMemory && Room(k.m) < 2
        else r == Done
      case _ => r == Done
  }

  // ---------------------------------------------------------------- faults

  /** Whether do_no_page would find a page of another task to share. */
  method FindsShare(mem: Memory, t: nat, lp: nat, users: nat) returns (found: bool)
    requires mem.Valid() && 0 < t < NR_TASKS && lp < TASK_PAGES
    ensures found <==> SharesPage(mem.Abs(), t, lp, users)
  {
    hide InvBut, CanShareFrom, FileAt;
    var f := FileAt(mem.tasks[t], lp);
    if users < 2 || f.None? { return false; }
    found := false;
    var q := NR_TASKS - 1;
    OnlyTasksShare(mem.Abs(), f.value, lp, t);
    while q > 0
      invariant 0 <= q < NR_TASKS
      invariant found <==> exists r: nat :: q < r && CanShareFrom(mem.Abs(), f.value, lp, t, r)
    {
      var can := CanShare(mem, f.value, lp, t, q);
      found := found || can;
      q := q - 1;
    }
  }

  lemma OnlyTasksShare(m: Vm, f: File, lp: nat, t: nat)
    requires lp < TASK_PAGES
    ensures forall q: nat | CanShareFrom(m, f, lp, t, q) :: 0 < q < NR_TASKS
  {
  }

  method CanShare(mem: Memory, f: File, lp: nat, t: nat, q: nat) returns (can: bool)
    requires mem.Valid() && 0 < t < NR_TASKS && 0 < q < NR_TASKS && lp < TASK_PAGES
    ensures can <==> CanShareFrom(mem.Abs(), f, lp, t, q)
  {
    hide InvBut;
    Place(q, lp);
    var e := mem.ReadEntry(q * TASK_PAGES + lp);
    can := q != t && RunsFrom(mem.tasks[q], f, lp) && e.Present? && !e.dirty && e.page >= LOW_PAGE;
  }

  /** Brings in the page of task t at v, if it is missing. */
  method Serve(mem: Memory, t: nat, v: nat, users: nat) returns (r: Outcome)
    requires mem.Valid() && 0 < t < NR_TASKS && v / TASK_PAGES == t
    modifies mem, mem.memMap, mem.phys, mem.pgDir, mem.swapBitmap, mem.swapDev
    ensures mem.Valid() && SameViews(old(mem.Abs()), mem.Abs())
    ensures mem.Abs().programs == old(mem.Abs()).programs && mem.Abs().holds == old(mem.Abs()).holds
    ensures r == Done || r == NoMemory || r == Stalled
    ensures r == Done ==> mem.Abs().pte[v].Present?
    ensures r == Stalled <==> LoadHazard(old(mem.Abs()), t, v, users)
    ensures r == NoMemory <==>
      !old(LoadHazard(mem.Abs(), t, v, users)) && old(FaultFails(mem.Abs(), mem.dirEntry, mem.pageEntry, t, v, users))
    ensures old(mem.Abs()).pte[v].Present? ==> StateOf(mem) == old(StateOf(mem))
    ensures r == Done && !old(mem.Abs()).pte[v].Present? ==> BroughtIn(old(mem.Abs()), mem.Abs(), t, v, users)
    ensures Room(old(mem.Abs())) >= 2 ==> r == Done
  {
    hide InvBut, View, Backing, Content, FaultFails, SharedAt, TableSpent, Shares;
    RoomIsFree(mem.Abs());
    var e := mem.ReadEntry(v);
    if e.Present? {
      PresentServed(StateOf(mem), t, v, users);
      return Done;
    }
    if e == Absent {
      SharesFile(mem.Abs(), t, v, users);
      if mem.pgDir[v / 1024].None? {
        var shares := FindsShare(mem, t, v % TASK_PAGES, users);
        AbsentShares(mem.Abs(), t, v, users);
        var p := mem.LastFree();
        if shares && p == 0 { return Stalled; }
      }
    }
    SwappedHasTable(mem.Abs(), v);
    SafeToShare(mem, t, v, users);
    AbsentShares(mem.Abs(), t, v, users);
    var ok := mem.DoNoPage(t, v, users);
    r := if ok then Done else NoMemory;
  }

  lemma PresentServed(k: Machine, t: nat, v: nat, users: nat)
    requires Sound(k) && t < NR_TASKS && v < VM_SIZE && k.m.pte[v].Present?
    ensures !Shares(k.m, t, v, users) && !FaultFails(k.m, k.d, k.e, t, v, users)
  {
  }

  lemma AbsentShares(m: Vm, t: nat, v: nat, users: nat)
    requires t < NR_TASKS && v < VM_SIZE
    ensures Shares(m, t, v, users) <==> m.pte[v] == Absent && SharesPage(m, t, v % TASK_PAGES, users)
  {
  }

  lemma SafeToShare(mem: Memory, t: nat, v: nat, users: nat)
    requires mem.Valid() && 0 < t < NR_TASKS && v / TASK_PAGES == t
    ensures SomeFree(mem.Abs()) || !SharesPage(mem.Abs(), t, v % TASK_PAGES, users) ==> mem.ShareSafe(t, v, users)
  {
    hide InvBut, ShareKept, CanShareFrom;
    var f := FileAt(mem.tasks[t], v % TASK_PAGES);
    if f.Some? { ShareKeptIf(mem.Abs(), mem.dirEntry, mem.pageEntry, f.value, v % TASK_PAGES, t); }
  }

  lemma SwappedHasTable(m: Vm, v: nat)
    requires Inv(m) && v < VM_SIZE
    ensures m.pte[v].Swapped? ==> m.dir[v / 1024].Some?
  {
    assert EntryOk(m, v);
  }

  /** A load: the page fault if the page is missing, then the byte. */
  method ServeLoad(mem: Memory, t: nat, lp: nat, o: nat, users: nat) returns (r: Outcome)
    requires mem.Valid() && Wellformed(Load(t, lp, o, users))
    modifies mem, mem.memMap, mem.phys, mem.pgDir, mem.swapBitmap, mem.swapDev
    ensures mem.Valid() && Step(old(Seen(mem.Abs())), Load(t, lp, o, users), r, Seen(mem.Abs()))
    ensures Answers(old(StateOf(mem)), Load(t, lp, o, users), r)
  {
    hide InvBut, LoadHazard, FaultFails, BroughtIn, Shares, Room, View, Seen;
    Place(t, lp);
    var v := t * TASK_PAGES + lp;
    ghost var m := mem.Abs();
    r := Serve(mem, t, v, users);
    SamePrivate(m, mem.Abs());
    if r == Done {
      var b := LoadByte(mem, v, o);
      r := Byte(b);
    }
  }

  method LoadByte(mem: Memory, v: nat, o: nat) returns (b: byte)
    requires mem.Valid() && v < VM_SIZE && mem.Abs().pte[v].Present? && o < PAGE_SIZE
    ensures b == Seen(mem.Abs()).mem[v][o]
  {
    hide InvBut;
    PresentEntry(mem.Abs(), v);
    var e := mem.ReadEntry(v);
    b := mem.ReadByte(e.page, o);
    assert b == View(mem.Abs(), v)[o];
  }

  /** A store: the page fault if the page is missing, the protection fault if it is read-only, then the
      write, which sets the dirty bit. */
  method ServeStore(mem: Memory, t: nat, lp: nat, o: nat, b: byte, users: nat) returns (r: Outcome)
    requires mem.Valid() && Wellformed(Store(t, lp, o, b, users))
    modifies mem, mem.memMap, mem.phys, mem.pgDir, mem.swapBitmap, mem.swapDev
    ensures mem.Valid() && Step(old(Seen(mem.Abs())), Store(t, lp, o, b, users), r, Seen(mem.Abs()))
    ensures Answers(old(StateOf(mem)), Store(t, lp, o, b, users), r)
  {
    hide InvBut, StoreHazard, StoreFails, LoadHazard, FaultFails, BroughtIn, SomeFree, Room, View, Effect, Seen;
    Place(t, lp);
    var v := t * TASK_PAGES + lp;
    ghost var k := StateOf(mem);
    r := Serve(mem, t, v, users);
    SamePrivate(k.m, mem.Abs());
    if r == Done {
      StoreAfter(k, StateOf(mem), t, v, users);
      r := WriteServed(mem, t, lp, v, o, b, users);
    } else {
      StoreUnserved(k, t, v, users);
    }
  }

  /** The fault has been served, or there was none: what holds then decides on the store. */
  lemma StoreAfter(k: Machine, l: Machine, t: nat, v: nat, users: nat)
    requires Sound(k) && Sound(l) && t < NR_TASKS && v < VM_SIZE
    requires !LoadHazard(k.m, t, v, users) && !FaultFails(k.m, k.d, k.e, t, v, users)
    requires if k.m.pte[v].Present? then l == k else BroughtIn(k.m, l.m, t, v, users)
    ensures StoreHazard(l.m, t, v, users) <==> StoreHazard(k.m, t, v, users)
    ensures !StoreHazard(k.m, t, v, users) ==> (StoreFails(l, t, v, users) <==> StoreFails(k, t, v, users))
    ensures Room(k.m) >= 2 ==> l.m.pte[v].rw || SomeFree(l.m)
    ensures l.m.pte[v].Present?
  {
    RoomIsFree(k.m);
    RoomIsFree(l.m);
    assert SharedAt(l.m, v) ==> KeyOf(l.m.pte[v]) == KeyOf(l.m.pte[v]) && !Pinned(l.m, v);
  }

  lemma StoreUnserved(k: Machine, t: nat, v: nat, users: nat)
    requires Sound(k) && t < NR_TASKS && v < VM_SIZE
    requires LoadHazard(k.m, t, v, users) || FaultFails(k.m, k.d, k.e, t, v, users)
    ensures LoadHazard(k.m, t, v, users) ==> StoreHazard(k.m, t, v, users)
    ensures !LoadHazard(k.m, t, v, users) ==> !StoreHazard(k.m, t, v, users) && StoreFails(k, t, v, users)
  {
  }

  method WriteServed(mem: Memory, t: nat, lp: nat, v: nat, o: nat, b: byte, users: nat) returns (r: Outcome)
    requires mem.Valid() && 0 < t < NR_TASKS && lp < TASK_PAGES && o < PAGE_SIZE && v == t * TASK_PAGES + lp
    requires v < VM_SIZE && v >= TASK_PAGES && mem.Abs().pte[v].Present?
    modifies mem, mem.memMap, mem.phys, mem.pgDir, mem.swapBitmap, mem.swapDev
    ensures mem.Valid() && Step(old(Seen(mem.Abs())), Store(t, lp, o, b, users), r, Seen(mem.Abs()))
    ensures r == Done || r == NoMemory || r == Stalled
    ensures r == Stalled <==> StoreHazard(old(mem.Abs()), t, v, users)
    ensures r == NoMemory <==> !old(StoreHazard(mem.Abs(), t, v, users)) && old(StoreFails(StateOf(mem), t, v, users))
    ensures old(mem.Abs()).pte[v].rw || SomeFree(old(mem.Abs())) ==> r == Done
  {
    hide InvBut, SomeFree, View, StoreHazard, StoreFails;
    ghost var m := mem.Abs();
    r := AllowWrite(mem, t, v, users);
    if r == Done {
      WriteByte(mem, m, v, o, b);
    } else {
      SamePrivate(m, mem.Abs());
    }
  }

  /** The protection fault, if the page at v is read-only. */
  method AllowWrite(mem: Memory, t: nat, v: nat, users: nat) returns (r: Outcome)
    requires mem.Valid() && 0 < t < NR_TASKS && TASK_PAGES <= v < VM_SIZE && mem.Abs().pte[v].Present?
    modifies mem, mem.memMap, mem.phys, mem.swapBitmap, mem.swapDev
    ensures mem.ValidBut(v) && SameViews(old(mem.Abs()), mem.Abs())
    ensures mem.Abs().programs == old(mem.Abs()).programs
    ensures r == Done || r == NoMemory || r == Stalled
    ensures if r == Done then Writable(mem.Abs(), v) else mem.Valid()
    ensures r == Stalled <==> StoreHazard(old(mem.Abs()), t, v, users)
    ensures r == NoMemory <==> !old(StoreHazard(mem.Abs(), t, v, users)) && old(StoreFails(StateOf(mem), t, v, users))
    ensures old(mem.Abs()).pte[v].rw || SomeFree(old(mem.Abs())) ==> r == Done
  {
    hide InvBut, Pinned, SomeFree, View, SharesPage, Room, Keeps, GetPage;
    ghost var m := mem.Abs();
    PresentEntry(m, v);
    InvWeaken(m, v);
    var e := mem.ReadEntry(v);
    if e.rw { return Done; }
    var p := mem.LastFree();
    var unshared := e.page >= LOW_PAGE && mem.memMap[e.page - LOW_PAGE] == 1;
    var pinned := IsPinned(mem, v);
    if !unshared && !pinned && p == 0 { return Stalled; }
    KeepsIf(m, mem.dirEntry, mem.pageEntry, v);
    var ok := mem.DoWpPage(v);
    r := if ok then Done else NoMemory;
  }

  /** Whether no sharer of the page of entry v can lose it to swap_out. */
  method IsPinned(mem: Memory, v: nat) returns (pinned: bool)
    requires mem.Valid() && v < VM_SIZE && mem.Abs().pte[v].Present? && mem.Abs().pte[v].page < mem.phys.Length
    ensures pinned <==> Pinned(mem.Abs(), v)
  {
    hide InvBut;
    var e := mem.ReadEntry(v);
    if e.page < LOW_PAGE { return true; }
    if mem.memMap[e.page - LOW_PAGE] <= 1 { return false; }
    ghost var m := mem.Abs();
    for u := 0 to VM_SIZE
      invariant forall w: nat | w < u && KeyOf(m.pte[w]) == KeyOf(m.pte[v]) :: m.pte[w].dirty
    {
      var d := mem.ReadEntry(u);
      if d.Present? && d.page == e.page && !d.dirty { return false; }
    }
    pinned := true;
  }

  method WriteByte(mem: Memory, ghost m: Vm, v: nat, o: nat, b: byte)
    requires mem.ValidBut(v) && v < VM_SIZE && Writable(mem.Abs(), v) && o < PAGE_SIZE
    requires SameViews(m, mem.Abs()) && mem.Abs().programs == m.programs
    modifies mem.phys
    ensures mem.Valid()
    ensures var s := Seen(m); Seen(mem.Abs()) == s.(mem := s.mem[v := s.mem[v][o := b]])
  {
    hide InvBut;
    ghost var n := mem.Abs();
    StoreByteOk(n, v, o, b);
    mem.Write(v, o, b);
    StoredPrivate(m, n, mem.Abs(), v, o, b);
  }

  lemma StoredPrivate(m: Vm, n: Vm, k: Vm, v: nat, o: nat, b: byte)
    requires v < VM_SIZE && o < PAGE_SIZE && SameViews(m, n) && n.programs == m.programs && k.programs == n.programs
    requires forall w: nat | w < VM_SIZE :: View(k, w) == if w == v then View(n, v)[o := b] else View(n, w)
    ensures var s := Seen(m); Seen(k) == s.(mem := s.mem[v := s.mem[v][o := b]])
  {
    assert forall w: nat | w < VM_SIZE :: View(m, w) == View(n, w);
  }

  // ---------------------------------------------------------------- fork, exec, exit

  /** fork, as far as memory goes. */
  method ServeFork(mem: Memory, t: nat, c: nat, dirs: nat) returns (r: Outcome)
    requires mem.Valid() && Wellformed(Fork(t, c, dirs))
    modifies mem, mem.memMap, mem.phys, mem.pgDir, mem.swapBitmap, mem.swapDev, mem.tasks
    ensures mem.Valid() && Step(old(Seen(mem.Abs())), Fork(t, c, dirs), r, Seen(mem.Abs()))
    ensures Answers(old(StateOf(mem)), Fork(t, c, dirs), r)
  {
    hide InvBut, Fits, Starved;
    ghost var m := mem.Abs();
    var idle := IsIdle(mem, c);
    if !idle { return Refused; }
    IdleEmpty(m, c);
    var ok := mem.CopyMem(t, c, dirs);
    if ok {
      assert Seen(mem.Abs()) == Forked(Seen(m), t, c, dirs) by { ForkPrivate(m, mem.Abs(), t, c, dirs); }
      return Done;
    }
    ghost var k := mem.Abs();
    IdleEmpty(k, c);
    SetProgramOk(k, c, m.programs[c]);
    var g := IDLE;
    mem.SetTask(c, g);
    r := NoMemory;
  }

  /** A task slot that can be forked into: no tables and no program. */
  method IsIdle(mem: Memory, c: nat) returns (idle: bool)
    requires mem.Valid() && c < NR_TASKS
    ensures idle <==> IdleSlot(mem.Abs(), c)
    ensures idle ==> mem.Idle(c)
  {
    idle := true;
    for d := c * TASK_DIRS to (c + 1) * TASK_DIRS
      invariant idle <==> forall e: nat | c * TASK_DIRS <= e < d :: mem.pgDir[e].None?
    {
      idle := idle && mem.pgDir[d].None?;
    }
    idle := idle && mem.tasks[c] == IDLE;
  }

  /** The first fork, by task 0, whose pages are the kernel's own. */
  method ServeBoot(mem: Memory, c: nat, dirtyBits: seq<bool>) returns (r: Outcome)
    requires mem.Valid() && Wellformed(Boot(c, dirtyBits))
    modifies mem, mem.memMap, mem.phys, mem.pgDir, mem.swapBitmap, mem.swapDev
    ensures mem.Valid() && Step(old(Seen(mem.Abs())), Boot(c, dirtyBits), r, Seen(mem.Abs()))
    ensures Answers(old(StateOf(mem)), Boot(c, dirtyBits), r)
  {
    hide InvBut, SomeFree, View, Seen, Booted, GetPage;
    ghost var m := mem.Abs();
    var idle := IsIdle(mem, c);
    if !idle { return Refused; }
    var pages := mem.LowPages();
    var ok := mem.CopyKernelPages(c * TASK_DIRS, dirtyBits);
    if ok {
      BootPrivate(m, mem.Abs(), c);
      return Image(pages);
    }
    SamePrivate(m, mem.Abs());
    r := NoMemory;
  }

  lemma BootPrivate(m: Vm, n: Vm, c: nat)
    requires 0 < c < NR_TASKS && n.programs == m.programs
    requires forall v: nat | v < VM_SIZE ::
      View(n, v) == if c * TASK_PAGES <= v < c * TASK_PAGES + 160 then m.frames[v - c * TASK_PAGES] else View(m, v)
    ensures Seen(n) == Booted(Seen(m), c, m.frames[..160])
  {
    var b := Booted(Seen(m), c, m.frames[..160]);
    forall v: nat | v < VM_SIZE ensures View(n, v) == b.mem[v] { PageOf(c, v); }
  }

  /** The end of exec: put_dirty_page enters a page of arguments, filled beforehand, in the new address
      space. If there is no memory for a page table that page is lost to the kernel. */
  method ServeGive(mem: Memory, t: nat, lp: nat, x: Page) returns (r: Outcome)
    requires mem.Valid() && Wellformed(Give(t, lp, x))
    modifies mem, mem.memMap, mem.phys, mem.pgDir, mem.swapBitmap, mem.swapDev
    ensures mem.Valid() && Step(old(Seen(mem.Abs())), Give(t, lp, x), r, Seen(mem.Abs()))
    ensures Answers(old(StateOf(mem)), Give(t, lp, x), r)
  {
    hide InvBut, View, Seen, Room;
    Place(t, lp);
    var v := t * TASK_PAGES + lp;
    var e := mem.ReadEntry(v);
    if e != Absent { return Refused; }
    r := GiveNew(mem, v, x);
  }

  method GiveNew(mem: Memory, v: nat, x: Page) returns (r: Outcome)
    requires mem.Valid() && TASK_PAGES <= v < VM_SIZE && mem.Abs().pte[v] == Absent
    modifies mem, mem.memMap, mem.phys, mem.pgDir, mem.swapBitmap, mem.swapDev
    ensures mem.Valid() && (r == Done || r == NoMemory)
    ensures r == NoMemory <==> old(mem.NoneFor(v, x))
    ensures Room(old(mem.Abs())) >= 2 ==> r == Done
    ensures var s := old(Seen(mem.Abs())); Seen(mem.Abs()) == if r == Done then s.(mem := s.mem[v := x]) else s
  {
    hide InvBut, SomeFree, View, Backing, Seen, Room, GetPage;
    ghost var m := mem.Abs();
    RoomIsFree(m);
    var p := mem.GetFreePage();
    if p == 0 {
      SamePrivate(m, mem.Abs());
      return NoMemory;
    }
    RoomAfter(m, mem.Abs(), p);
    r := GiveTaken(mem, m, v, p, x);
  }

  method GiveTaken(mem: Memory, ghost m: Vm, v: nat, p: nat, x: Page) returns (r: Outcome)
    requires mem.Valid() && Allocated(m, mem.Abs(), p) && TASK_PAGES <= v < VM_SIZE && m.pte[v] == Absent
    modifies mem, mem.memMap, mem.phys, mem.pgDir, mem.swapBitmap, mem.swapDev
    ensures mem.Valid() && (r == Done || r == NoMemory)
    ensures Inv(Fill(old(mem.Abs()), p, x))
    ensures var a := Fill(old(mem.Abs()), p, x);
      r == NoMemory <==> old(mem.pgDir[v / 1024]).None? && GetPage(a, old(mem.dirEntry), old(mem.pageEntry)).page == 0
    ensures SomeFree(old(mem.Abs())) ==> r == Done
    ensures var s := Seen(m); Seen(mem.Abs()) == if r == Done then s.(mem := s.mem[v := x]) else s
  {
    hide InvBut, View, Backing, GetPage;
    ghost var a := mem.Abs();
    FillOk(a, p, x);
    HeldPageUnused(a, p);
    mem.WritePage(p, x);
    ghost var b := mem.Abs();
    StillFree(a, b);
    SameViewsTransitive(m, a, b);
    var ok := mem.PutPage(p, v, true);
    if ok {
      GivenPrivate(m, b, mem.Abs(), v, p);
      return Done;
    }
    SameViewsTransitive(m, b, mem.Abs());
    SamePrivate(m, mem.Abs());
    r := NoMemory;
  }

  lemma GivenPrivate(m: Vm, b: Vm, n: Vm, v: nat, p: nat)
    requires SameViews(m, b) && b.programs == m.programs && Mapped(b, n, v, p, true)
    ensures var s := Seen(m); Seen(n) == s.(mem := s.mem[v := b.frames[p]])
  {
    assert forall w: nat | w < VM_SIZE :: View(m, w) == View(b, w);
    assert View(n, v) == b.frames[p];
  }

  lemma ForkPrivate(m: Vm, n: Vm, t: nat, c: nat, dirs: nat)
    requires t < NR_TASKS && c < NR_TASKS && t != c && dirs <= TASK_DIRS
    requires n.programs == m.programs[c := m.programs[t]]
    requires forall v: nat | v < VM_SIZE && v / TASK_PAGES != c :: View(n, v) == View(m, v)
    requires forall v: nat | v < VM_SIZE && v / TASK_PAGES == c::
      View(n, v) == ForkView(m, t, dirs, v % TASK_PAGES)
    ensures Seen(n) == Forked(Seen(m), t, c, dirs)
  {
    var f := Forked(Seen(m), t, c, dirs);
    forall v: nat | v < VM_SIZE ensures View(n, v) == f.mem[v] {
      if v / TASK_PAGES == c && v % TASK_PAGES < dirs * 1024 { Place(t, v % TASK_PAGES); }
    }
  }

  /** exec, as far as memory goes: the old space is freed, the new program is demand-loaded. */
  method ServeExec(mem: Memory, t: nat, g: Program)
    requires mem.Valid() && 0 < t < NR_TASKS
    modifies mem, mem.memMap, mem.phys, mem.pgDir, mem.swapBitmap, mem.tasks
    ensures mem.Valid() && Seen(mem.Abs()) == Fresh(old(Seen(mem.Abs())), t, g)
    ensures mem.Idle(t)
  {
    hide InvBut;
    ghost var m := mem.Abs();
    mem.FreePageTables(t * TASK_DIRS, TASK_DIRS);
    ghost var n := mem.Abs();
    IdleEmpty(n, t);
    SetProgramOk(n, t, g);
    mem.SetTask(t, g);
    FreshPrivate(m, n, mem.Abs(), t, g);
  }

  lemma FreshPrivate(m: Vm, n: Vm, k: Vm, t: nat, g: Program)
    requires 0 < t < NR_TASKS && Freed(m, n, t * TASK_DIRS, TASK_DIRS) && k == SetProgram(n, t, g)
    requires forall v: nat | v < VM_SIZE && v / TASK_PAGES != t :: View(k, v) == View(n, v)
    requires forall v: nat | v < VM_SIZE && v / TASK_PAGES == t :: View(k, v) == Content(g, v % TASK_PAGES)
    ensures Seen(k) == Fresh(Seen(m), t, g)
  {
    var f := Fresh(Seen(m), t, g);
    forall v: nat | v < VM_SIZE ensures View(k, v) == f.mem[v] { PageOf(t, v); }
  }

  /** page-out: one page leaves memory, if any can. */
  method ServePageOut(mem: Memory)
    requires mem.Valid()
    modifies mem, mem.memMap, mem.phys, mem.swapBitmap, mem.swapDev
    ensures mem.Valid() && Seen(mem.Abs()) == old(Seen(mem.Abs()))
    ensures if SomeCandidate(old(mem.Abs()), old(mem.dirEntry), old(mem.pageEntry))
            then mem.TookFirst(old(mem.Abs()), old(mem.dirEntry), old(mem.pageEntry)) else mem.Abs() == old(mem.Abs())
  {
    hide InvBut, SomeCandidate, View;
    ghost var m := mem.Abs();
    var done := mem.SwapOut();
    SamePrivate(m, mem.Abs());
  }

  /** Any request. */
  method Perform(mem: Memory, op: Op) returns (r: Outcome)
    requires mem.Valid()
    modifies mem, mem.memMap, mem.phys, mem.pgDir, mem.swapBitmap, mem.swapDev, mem.tasks
    ensures mem.Valid() && Step(old(Seen(mem.Abs())), op, r, Seen(mem.Abs()))
    ensures Answers(old(StateOf(mem)), op, r)
  {
    hide InvBut, View, Seen;
    if !Wellformed(op) { return Refused; }
    hide Answers;
    match op
    case Load(t, lp, o, users) => r := ServeLoad(mem, t, lp, o, users);
    case Store(t, lp, o, b, users) => r := ServeStore(mem, t, lp, o, b, users);
    case Fork(t, c, dirs) => r := ServeFork(mem, t, c, dirs);
    case Boot(c, dirtyBits) => r := ServeBoot(mem, c, dirtyBits);
    case Give(t, lp, x) => r := ServeGive(mem, t, lp, x);
    case _ => PerformSure(mem, op); r := Done;
  }

  /** The requests that cannot fail. */
  method PerformSure(mem: Memory, op: Op)
    requires mem.Valid() && Wellformed(op) && (op.Exec? || op.Exit? || op.PageOut?)
    modifies mem, mem.memMap, mem.phys, mem.pgDir, mem.swapBitmap, mem.swapDev, mem.tasks
    ensures mem.Valid() && Step(old(Seen(mem.Abs())), op, Done, Seen(mem.Abs()))
    ensures Answers(old(StateOf(mem)), op, Done)
  {
    hide InvBut, View, Seen;
    match op
    case Exec(t, g) => ServeExec(mem, t, g);
    case Exit(t) => ServeExec(mem, t, IDLE);
    case PageOut => ServePageOut(mem);
  }

  // ---------------------------------------------------------------- whole runs

  /** ms[i] is the paging state before request i: each request does to the private memories what the
      specification says, and is not turned down without need. */
  ghost predicate Trace(ms: seq<Machine>, ops: seq<Op>, rs: seq<Outcome>) {
    && |ms| == |ops| + 1 && |rs| == |ops| && (forall i: nat | i < |ms| :: Sound(ms[i]))
    && forall i: nat | i < |ops| ::
      Step(Seen(ms[i].m), ops[i], rs[i], Seen(ms[i + 1].m)) && Answers(ms[i], ops[i], rs[i])
  }

  lemma TraceExtend(ms: seq<Machine>, ops: seq<Op>, rs: seq<Outcome>, op: Op, r: Outcome, n: Machine)
    requires Trace(ms, ops, rs) && Sound(n) && Step(Seen(ms[|ops|].m), op, r, Seen(n.m)) && Answers(ms[|ops|], op, r)
    ensures Trace(ms + [n], ops + [op], rs + [r])
  {
    hide Step, Answers, Seen;
    var ms', ops', rs' := ms + [n], ops + [op], rs + [r];
    forall i: nat | i < |ops'|
      ensures Step(Seen(ms'[i].m), ops'[i], rs'[i], Seen(ms'[i + 1].m)) && Answers(ms'[i], ops'[i], rs'[i])
    {
      if i < |ops| { assert Step(Seen(ms[i].m), ops[i], rs[i], Seen(ms[i + 1].m)) && Answers(ms[i], ops[i], rs[i]); }
    }
  }

  /** What the tasks see of it is a run of private memories. */
  lemma {:induction false} TraceIsRun(ms: seq<Machine>, ops: seq<Op>, rs: seq<Outcome>)
    requires Trace(ms, ops, rs)
    ensures Run(Seen(ms[0].m), ops, rs, Seen(ms[|ops|].m))
    decreases |ops|
  {
    hide Step, Answers, Seen;
    if ops != [] {
      var k := |ops| - 1;
      assert Trace(ms[..k + 1], ops[..k], rs[..k]) by {
        forall i: nat | i < k
          ensures Step(Seen(ms[i].m), ops[i], rs[i], Seen(ms[i + 1].m)) && Answers(ms[i], ops[i], rs[i])
        {
        }
      }
      TraceIsRun(ms[..k + 1], ops[..k], rs[..k]);
      assert Step(Seen(ms[k].m), ops[k], rs[k], Seen(ms[k + 1].m));
    }
  }

  /** The main theorem of the paging model: any run of the paging code is a run of private memories, in
      which requests fail only for want of memory. */
  method Execute(mem: Memory, ops: seq<Op>) returns (rs: seq<Outcome>)
    requires mem.Valid()
    modifies mem, mem.memMap, mem.phys, mem.pgDir, mem.swapBitmap, mem.swapDev, mem.tasks
    ensures mem.Valid() && |rs| == |ops|
    ensures Run(old(Seen(mem.Abs())), ops, rs, Seen(mem.Abs()))
    ensures exists ms: seq<Machine> :: Trace(ms, ops, rs) && ms[0] == old(StateOf(mem)) && ms[|ops|] == StateOf(mem)
  {
    hide InvBut, Step, Answers, Seen;
    ghost var ms := [StateOf(mem)];
    rs := [];
    for i := 0 to |ops|
      invariant mem.Valid() && |rs| == i && Trace(ms, ops[..i], rs)
      invariant ms[0] == old(StateOf(mem)) && ms[i] == StateOf(mem)
    {
      var r := Perform(mem, ops[i]);
      TraceExtend(ms, ops[..i], rs, ops[i], r, StateOf(mem));
      assert ops[..i] + [ops[i]] == ops[..i + 1];
      ms := ms + [StateOf(mem)];
      rs := rs + [r];
    }
    assert ops[..|ops|] == ops;
    TraceIsRun(ms, ops, rs);
  }
}
