// Weaknesses of mm/, each on a run from a machine just started: write_verify forgets to mark its copy dirty,
// un_wp_page and try_to_share trust what they read before get_free_page may have swapped the page away, and
// swap_out passes over entries.

module VmFaults {
  import opened Kernel
  import opened VmState
  import opened VmSteps
  import opened VmRelations
  import opened VmSweep
  import opened PagedMemory

  /** One step of the kernel, or of a task storing a byte. */
  datatype Act =
    | Take(p: nat)                        // get_free_page, which takes the highest free page
    | Install(d: nat, p: nat)             // a taken page becomes a page table
    | Map(v: nat, p: nat, dirty: bool)    // put_page, put_dirty_page
    | Store(v: nat, o: nat, b: byte)
    | ShareWith(v: nat, w: nat)           // copy_page_tables, for one entry
    | Copy(v: nat, p: nat)                // un_wp_page on a shared page
    | Drop(v: nat)                        // try_to_swap_out on a clean page

  ghost predicate Does(m: Vm, a: Act, n: Vm) {
    match a
    case Take(p) => HighestFree(m, p) && n == Alloc(m, p)
    case Install(d, p) =>
      && IsHeld(m, p) && TASK_DIRS <= d < TABLE_SIZE && m.dir[d].None?
      && m.frames[p] == ZeroPage() && n == SetTable(m, d, p)
    case Map(v, p, dirty) => IsHeld(m, p) && Mappable(m, v) && n == MapHeld(m, v, p, dirty)
    case Store(v, o, b) => Writable(m, v) && o < PAGE_SIZE && n == StoreByte(m, v, o, b)
    case ShareWith(v, w) => Shared(m, v, w, n)
    case Copy(v, p) => Copyable(m, v, p) && !CountOne(m, v) && n == CopyOnWrite(m, v, p)
    case Drop(v) =>
      && v < VM_SIZE && CleanIn(m, v) && m.pte[v].page < |m.frames|
      && m.count[m.pte[v].page - LOW_PAGE] > 0 && n == Unmap(m, v)
  }

  /** ms[i] is the state after the first i steps. */
  ghost predicate IsRun(ms: seq<Vm>, acts: seq<Act>) {
    |ms| == |acts| + 1 && forall i: nat | i < |acts| :: Does(ms[i], acts[i], ms[i + 1])
  }

  /** Every step keeps the invariant, except copying a written page without marking the copy dirty. */
  lemma DoesKeeps(m: Vm, a: Act, n: Vm)
    requires Inv(m) && Does(m, a, n)
    requires match a
             case Map(v, p, dirty) => dirty || m.frames[p] == Backing(m, v)
             case ShareWith(v, w) => Backing(m, v) == Backing(m, w)
             case Copy(v, _) => View(m, v) == Backing(m, v)
             case _ => true
    ensures Inv(n)
  {
    hide InvBut;
    match a
    case Take(p) => AllocOk(m, p);
    case Install(d, p) => SetTableOk(m, d, p);
    case Map(v, p, dirty) => MapHeldOk(m, v, p, dirty);
    case Store(v, o, b) => InvWeaken(m, v); StoreByteOk(m, v, o, b);
    case ShareWith(v, w) => ShareOk(m, v, w);
    case Copy(v, p) => CopyOnWriteOk(m, v, p);
    case Drop(v) => UnmapOk(m, v);
  }

  // ---------------------------------------------------------------- write_verify

  /** What write_verify leaves behind on a shared page: a writable copy not marked dirty. The next
      try_to_swap_out may simply forget it, and the task then sees the page of its program again. Its
      contents survive if and only if they were that page all along. */
  lemma WriteVerifyThenSwapOut(m: Vm, p: nat, v: nat)
    requires Inv(m) && IsFree(m, p) && v < VM_SIZE && m.pte[v].Present?
    ensures Inv(Alloc(m, p)) && Copyable(Alloc(m, p), v, p)
    ensures var n := CopyOnWrite(Alloc(m, p), v, p);
      && Swappable(n, v) && n.count[p - LOW_PAGE] > 0
      && (View(Unmap(n, v), v) == View(m, v) <==> View(m, v) == Backing(m, v))
  {
    BreakSharingOk(m, p, v);
    var n := CopyOnWrite(Alloc(m, p), v, p);
    MappedCount(n, v);
    assert Backing(n, v) == Backing(m, v);
  }

  /** Task 1 stores a 7 at the start of its page and forks task 2; the kernel calls write_verify on the page
      of task 2, which swap_out then forgets. */
  const LOSING: seq<Act> :=
    [Take(303), Install(16, 303), Take(302), Map(16384, 302, true), Store(16384, 0, 7),
     Take(301), Install(32, 301), ShareWith(16384, 32768), Take(300), Copy(32768, 300), Drop(32768)]

  /** What task 1 has after the store: page 302, written, and the only free pages are 300 and 301. */
  ghost predicate Stored(m: Vm) {
    && |m.frames| == 304 && (forall t: nat | t < NR_TASKS :: m.programs[t] == Program(None, None))
    && m.dir[16].Some? && m.dir[32].None? && m.pte[16384] == Present(302, true, true) && m.pte[32768] == Absent
    && m.frames[302][0] == 7 && m.count[46] == 1 && m.holds[44] == 0 && m.holds[45] == 0
    && (forall i: nat | i < PAGING_PAGES :: m.count[i] == 0 <==> i == 44 || i == 45)
  }

  lemma StoreRun(m: Vm) returns (ms: seq<Vm>)
    requires Initial(m) && |m.frames| == 304 && forall i: nat | i < PAGING_PAGES :: m.count[i] == 0 <==> 44 <= i < 48
    requires forall t: nat | t < NR_TASKS :: m.programs[t] == Program(None, None)
    ensures IsRun(ms, LOSING[..5]) && ms[0] == m && Stored(ms[5])
  {
    assert m.count[44] == m.count[45] == m.count[46] == m.count[47] == 0;
    var a := Alloc(m, 303);
    var b := SetTable(a, 16, 303);
    var c := Alloc(b, 302);
    var d := MapHeld(c, 16384, 302, true);
    ms := [m, a, b, c, d, StoreByte(d, 16384, 0, 7)];
  }

  /** What both tasks have after the fork: page 302, read-only, and only page 300 is free. */
  ghost predicate Forked(m: Vm) {
    && |m.frames| == 304 && (forall t: nat | t < NR_TASKS :: m.programs[t] == Program(None, None))
    && m.dir[32].Some? && m.pte[32768] == Present(302, false, true) && m.frames[302][0] == 7 && m.count[46] == 2
    && m.holds[44] == 0 && (forall i: nat | i < PAGING_PAGES :: m.count[i] == 0 <==> i == 44)
  }

  lemma ForkRun(m: Vm) returns (ms: seq<Vm>)
    requires Stored(m)
    ensures IsRun(ms, LOSING[5..8]) && ms[0] == m && Forked(ms[3])
  {
    assert m.count[44] == m.count[45] == 0;
    var a := Alloc(m, 301);
    var b := SetTable(a, 32, 301);
    var c := Share(b, 16384, 32768);
    ms := [m, a, b, c];
  }

  lemma LoseRun(m: Vm) returns (ms: seq<Vm>)
    requires Forked(m)
    ensures IsRun(ms, LOSING[8..]) && ms[0] == m
    ensures View(ms[2], 32768)[0] == 7 && View(ms[3], 32768)[0] == 0
  {
    assert m.count[44] == 0;
    var a := Alloc(m, 300);
    var b := CopyOnWrite(a, 32768, 300);
    CopyOnWriteIs(a, 32768, 300);
    var c := Unmap(b, 32768);
    ms := [m, a, b, c];
    assert View(c, 32768) == ZeroPage();
  }

  lemma RunAppend(ms: seq<Vm>, ns: seq<Vm>, acts: seq<Act>, more: seq<Act>)
    requires IsRun(ms, acts) && IsRun(ns, more) && ms[|acts|] == ns[0]
    ensures IsRun(ms + ns[1..], acts + more)
  {
    var run, all := ms + ns[1..], acts + more;
    forall i: nat | i < |all| ensures Does(run[i], all[i], run[i + 1]) {
      if i >= |acts| { assert Does(ns[i - |acts|], more[i - |acts|], ns[i - |acts| + 1]); }
    }
  }

  /** On a machine just started, with four free pages, task 2 reads 7 before swap_out and 0 afterwards. */
  lemma WriteVerifyLoses(m: Vm)
    requires Initial(m) && |m.frames| == 304 && forall i: nat | i < PAGING_PAGES :: m.count[i] == 0 <==> 44 <= i < 48
    requires forall t: nat | t < NR_TASKS :: m.programs[t] == Program(None, None)
    ensures exists ms: seq<Vm> ::
      && IsRun(ms, LOSING) && ms[0] == m && View(ms[10], 32768)[0] == 7 && View(ms[11], 32768)[0] == 0
  {
    var first := StoreRun(m);
    var second := ForkRun(first[5]);
    var third := LoseRun(second[3]);
    RunAppend(first, second, LOSING[..5], LOSING[5..8]);
    RunAppend(first + second[1..], third, LOSING[..5] + LOSING[5..8], LOSING[8..]);
    assert LOSING[..5] + LOSING[5..8] + LOSING[8..] == LOSING;
    var ms := first + second[1..] + third[1..];
    assert IsRun(ms, LOSING) && ms[10] == third[2] && ms[11] == third[3];
  }

  // ---------------------------------------------------------------- a single page in memory

  /** Nothing is mapped, and the free pages are those from `low` (of main memory) to the end. */
  ghost predicate Bare(m: Vm, low: nat) {
    && |m.frames| == 304 && (forall v: nat | v < VM_SIZE :: m.pte[v] == Absent)
    && (forall d: nat | d < TABLE_SIZE :: m.dir[d].None?)
    && (forall i: nat | i < PAGING_PAGES :: m.count[i] == 0 <==> low <= i < 48)
  }

  /** Only entry v is mapped, clean, to page 302; two of the free pages are gone. */
  ghost predicate Single(m: Vm, v: nat, low: nat) {
    && |m.frames| == 304 && v < VM_SIZE
    && (forall u: nat | u < VM_SIZE :: m.pte[u] == if u == v then Present(302, true, false) else Absent)
    && (forall d: nat | d < TABLE_SIZE :: m.dir[d] == if d == v / 1024 then Some(303) else None)
    && m.count[46] == 1 && (forall i: nat | i < PAGING_PAGES :: m.count[i] == 0 <==> low <= i < 46)
  }

  /** A machine with 304 pages, free from `start` on, and nothing to run. */
  method Started(dev: seq<Page>, start: nat) returns (mem: Memory)
    requires |dev| == SWAP_BITS && LOW_PAGE <= start <= 302
    ensures mem.Valid() && Bare(mem.Abs(), start - LOW_PAGE) && mem.dirEntry == 16 && mem.pageEntry == -1
    ensures Initial(mem.Abs()) && NoPrograms(mem.Abs())
    ensures fresh(mem) && fresh(mem.memMap) && fresh(mem.phys) && fresh(mem.pgDir)
    ensures fresh(mem.swapBitmap) && fresh(mem.swapDev) && fresh(mem.tasks)
  {
    mem := new Memory(304, dev);
    mem.MemInit(start);
  }

  /** The first page of a machine is loaded. */
  method LoadFirst(mem: Memory, v: nat, x: Page, ghost low: nat)
    requires mem.Valid() && Bare(mem.Abs(), low) && low <= 46 && TASK_PAGES <= v < VM_SIZE
    requires x == Backing(mem.Abs(), v)
    modifies mem, mem.memMap, mem.phys, mem.pgDir, mem.swapBitmap, mem.swapDev
    ensures mem.Valid() && Single(mem.Abs(), v, low) && mem.Abs().programs == old(mem.Abs()).programs
    ensures mem.dirEntry == old(mem.dirEntry) && mem.pageEntry == old(mem.pageEntry)
  {
    hide InvBut, Backing, View, GetPage, Evicted, SomeCandidate, Allocated, Bare, Single;
    ghost var m := mem.Abs();
    FirstTable(m, v, low);
    var t := mem.GetFreePage();
    mem.InstallTable(v / 1024, t);
    FirstPage(m, mem.Abs(), v, x, low);
    var p := mem.GetFreePage();
    mem.WritePage(p, x);
    mem.EnterPage(v, p, false);
  }

  lemma FirstTable(m: Vm, v: nat, low: nat)
    requires Inv(m) && Bare(m, low) && low <= 46 && TASK_PAGES <= v < VM_SIZE
    ensures HighestFree(m, 303) && m.dir[v / 1024].None?
  {
    assert m.count[47] == 0;
  }

  lemma FirstPage(m: Vm, b: Vm, v: nat, x: Page, low: nat)
    requires Inv(m) && Bare(m, low) && low <= 46 && TASK_PAGES <= v < VM_SIZE && x == Backing(m, v)
    requires IsFree(m, 303) && b == SetTable(Alloc(m, 303), v / 1024, 303) && Inv(b)
    ensures HighestFree(b, 302) && (forall d: nat | d < TABLE_SIZE :: b.dir[d] != Some(302))
    ensures IsHeld(Alloc(b, 302), 302)
    ensures var c := Fill(Alloc(b, 302), 302, x);
      IsHeld(c, 302) && Mappable(c, v) && Inv(MapHeld(c, v, 302, false)) && Single(MapHeld(c, v, 302, false), v, low)
  {
    hide InvBut;
    assert b.count[46] == m.count[46] == 0;
    AllocOk(b, 302);
    var c := Fill(Alloc(b, 302), 302, x);
    FillOk(Alloc(b, 302), 302, x);
    assert Backing(c, v) == Backing(m, v);
    MapHeldOk(c, v, 302, false);
  }

  /** The page is the one that swap_out would take, unless it misses it. */
  lemma SingleTaken(m: Vm, v: nat, d: nat, e: int)
    requires Inv(m) && Single(m, v, 46) && TASK_PAGES <= v && IsCursor(d, e)
    ensures !SomeFree(m) && CleanIn(m, v) && CountOne(m, v) && Swappable(m, v)
    ensures if v in Missed(m.dir, d, e) then !SomeCandidate(m, d, e) else Takes(m, d, e, v)
    ensures v in Missed(m.dir, d, e) <==>
      if d == v / 1024 then v % 1024 == e == 0 else v % 1024 <= e
  {
    assert forall u: nat | Candidate(m, d, e, u) :: u == v;
    assert forall g: nat | IsFirst(m.dir, d, g) :: g == v / 1024;
    assert IsFirst(m.dir, d, v / 1024);
  }

  /** It is swapped out, and its table is given back. */
  lemma SingleGone(m: Vm, v: nat, k: Vm, n: Vm)
    requires Inv(m) && Single(m, v, 46) && TASK_PAGES <= v && Swappable(m, v)
    requires SwappedOut(m, v, k) && Freed(k, n, v / TASK_PAGES * TASK_DIRS, TASK_DIRS)
    ensures Bare(n, 46)
  {
    assert v in Refs(m.pte, PageKey(302)) && v / 1024 in Tables(m.dir, 303);
    forall i: nat | i < PAGING_PAGES ensures n.count[i] == m.holds[i] && (m.holds[i] == 0 <==> 46 <= i < 48) {
      var p := LOW_PAGE + i;
      assert Refs(n.pte, PageKey(p)) == {} && Tables(n.dir, p) == {};
      if p != 302 && p != 303 { assert Refs(m.pte, PageKey(p)) == {} && Tables(m.dir, p) == {}; }
    }
  }

  // ---------------------------------------------------------------- swap_out

  /** On a machine with two pages, a task of 64 MB has page u loaded and swapped out, and exits; then page w
      is loaded. Although w could be swapped out, get_free_page returns 0 whenever w comes no later in its
      table than u did in a table of another slot, or is the same and the first of its table. */
  method SweepMisses(dev: seq<Page>, u: nat, w: nat) returns (mem: Memory, p: nat)
    requires |dev| == SWAP_BITS && TASK_PAGES <= u < VM_SIZE && TASK_PAGES <= w < VM_SIZE
    ensures mem.Valid() && (p == 0 ==> Swappable(mem.Abs(), w))
    ensures p == 0 <==> if u / 1024 == w / 1024 then u % 1024 == w % 1024 == 0 else w % 1024 <= u % 1024
  {
    hide InvBut, Backing, View, GetPage, Swappable, Bare, Initial;
    mem := Started(dev, 302);
    ComeAndGo(mem, u);
    p := LoadAndAsk(mem, w);
  }

  /** The first page of a machine is loaded and swapped out, and its task exits. */
  method ComeAndGo(mem: Memory, u: nat)
    requires mem.Valid() && Bare(mem.Abs(), 46) && TASK_PAGES <= u < VM_SIZE && NoPrograms(mem.Abs())
    requires mem.dirEntry == 16 && mem.pageEntry == -1
    modifies mem, mem.memMap, mem.phys, mem.pgDir, mem.swapBitmap, mem.swapDev
    ensures mem.Valid() && Bare(mem.Abs(), 46) && NoPrograms(mem.Abs())
    ensures mem.dirEntry == u / 1024 && mem.pageEntry == u % 1024
  {
    hide InvBut, Backing, View, Bare, Single, Takes, SomeCandidate, Missed, Swappable, SwappedOut;
    mem.ZeroBacked(mem.Abs(), u);
    LoadFirst(mem, u, ZeroPage(), 46);
    ghost var m := mem.Abs();
    SingleTaken(m, u, 16, -1);
    var done := mem.SwapOut();
    TakesSome(m, 16, -1, u);
    ghost var v, k := mem.dirEntry * 1024 + mem.pageEntry, mem.Abs();
    TakesUnique(m, 16, -1, u, v);
    mem.FreePageTables(u / TASK_PAGES * TASK_DIRS, TASK_DIRS);
    SingleGone(m, u, k, mem.Abs());
  }

  lemma TakesSome(m: Vm, d: nat, e: int, v: nat)
    requires IsCursor(d, e) && Takes(m, d, e, v)
    ensures SomeCandidate(m, d, e)
  {
  }

  /** Another page is loaded, and get_free_page is asked for a third. */
  method LoadAndAsk(mem: Memory, w: nat) returns (p: nat)
    requires mem.Valid() && Bare(mem.Abs(), 46) && TASK_PAGES <= w < VM_SIZE && NoPrograms(mem.Abs())
    modifies mem, mem.memMap, mem.phys, mem.pgDir, mem.swapBitmap, mem.swapDev
    ensures mem.Valid() && (p == 0 ==> Swappable(mem.Abs(), w))
    ensures p == 0 <==> old(if mem.dirEntry == w / 1024 then mem.pageEntry == w % 1024 == 0
                            else w % 1024 <= mem.pageEntry)
  {
    hide InvBut, Backing, View, Bare, Single, Takes, SomeCandidate, Missed, Swappable, GetPage, CleanIn, Keeps;
    mem.ZeroBacked(mem.Abs(), w);
    LoadFirst(mem, w, ZeroPage(), 46);
    ghost var m, d, e := mem.Abs(), mem.dirEntry, mem.pageEntry;
    SingleTaken(m, w, d, e);
    p := mem.GetFreePage();
    if w in Missed(m.dir, d, e) {
      GetPageNone(m, d, e);
    } else {
      KeepsOthers(m, d, e, w, w);
      PresentEntry(m, w);
    }
  }

  ghost predicate NoPrograms(m: Vm) {
    forall t: nat | t < NR_TASKS :: m.programs[t] == Program(None, None)
  }

  // ---------------------------------------------------------------- try_to_share

  /** On a machine with two pages task 1 loads the first page of its program; task 2, which runs the same,
      faults on it too. In need of a table for task 2, get_free_page takes that very page, and try_to_share
      goes on to count one user of it too many. */
  method SharingGoesWrong(dev: seq<Page>, f: File) returns (mem: Memory)
    requires |dev| == SWAP_BITS && f.endData > 0
    ensures mem.Wired() && OneOver(mem.Abs(), 302) && !CountsOk(mem.Abs())
  {
    hide InvBut, View, GetPage, Bare, Single, Content, Clipped, FilePage, CountsOk, OneOver;
    mem := Started(dev, 302);
    RunBoth(mem, Program(Some(f), None));
    var x := mem.LoadPage(f, 1, 0, f.endData);
    ContentIs(mem.tasks[1], 0);
    LoadFirst(mem, 16384, x, 46);
    ShareSingle(mem);
  }

  /** Tasks 1 and 2 of a machine just started run program g. */
  method RunBoth(mem: Memory, g: Program)
    requires mem.Valid() && Bare(mem.Abs(), 46)
    modifies mem.tasks
    ensures mem.Valid() && Bare(mem.Abs(), 46) && mem.tasks[1] == mem.tasks[2] == g
  {
    hide InvBut, View, Content;
    ghost var m := mem.Abs();
    SetProgramOk(m, 1, g);
    mem.SetTask(1, g);
    SetProgramOk(mem.Abs(), 2, g);
    mem.SetTask(2, g);
  }

  /** The page of task 1 is to be shared with task 2. */
  method ShareSingle(mem: Memory)
    requires mem.Valid() && Single(mem.Abs(), 16384, 46) && mem.tasks[1] == mem.tasks[2]
    requires mem.dirEntry == 16 && mem.pageEntry == -1
    modifies mem, mem.memMap, mem.phys, mem.pgDir, mem.swapBitmap, mem.swapDev
    ensures mem.Wired() && OneOver(mem.Abs(), 302) && !CountsOk(mem.Abs())
  {
    hide InvBut, View, GetPage, Takes, SomeCandidate, Missed, Swappable, Content, CountsOk, OneOver, Keeps;
    ghost var m := mem.Abs();
    SingleTaken(m, 16384, 16, -1);
    KeepsOthers(m, 16, -1, 16384, 16384);
    var done, oom := mem.TryToShare(0, 1, 2);
    CountsOff(mem.Abs(), 302);
  }

  // ---------------------------------------------------------------- un_wp_page

  /** Tasks 1 and 2 share page 302, and no page is free. */
  ghost predicate Pair(m: Vm) {
    && |m.frames| == 304 && (forall i: nat | i < PAGING_PAGES :: m.count[i] > 0) && m.count[46] == 2
    && (forall u: nat | u < VM_SIZE ::
         m.pte[u] == if u == 16384 || u == 32768 then Present(302, false, false) else Absent)
    && (forall d: nat | d < TABLE_SIZE :: m.dir[d].Some? <==> d == 16 || d == 32)
  }

  /** get_free_page takes the page from both. */
  lemma PairLost(m: Vm)
    requires Inv(m) && Pair(m)
    ensures !CountOne(m, 16384) && !Keeps(m, 16, -1, 16384) && GetPage(m, 16, -1).page == 302
  {
    hide InvBut, Keeps, GetPage, View;
    assert m.pte[16384].Present? && Swappable(m, 16384);
    assert forall u: nat | Candidate(m, 16, -1, u) :: u == 16384 || u == 32768;
    assert Takes(m, 16, -1, 16384);
    GetPageEntries(m, 16, -1, 16384);
    GetPageStep(m, 16, -1, 16384);
    EvictOk(m, 16384);
    PairHalf(Evict(m, 16384));
  }

  lemma PairHalf(m: Vm)
    requires Inv(m) && |m.frames| == 304 && (forall i: nat | i < PAGING_PAGES :: m.count[i] > 0) && m.count[46] == 1
    requires forall u: nat | u < VM_SIZE :: m.pte[u] == if u == 32768 then Present(302, false, false) else Absent
    requires m.dir[16].Some? && m.dir[15].None?
    ensures GetPage(m, 16, 0).page == 302
  {
    hide InvBut, Keeps, GetPage, View;
    assert Swappable(m, 32768);
    assert forall u: nat | Candidate(m, 16, 0, u) :: u == 32768;
    assert Takes(m, 16, 0, 32768);
    KeepsOthers(m, 16, 0, 32768, 32768);
  }

  /** On a machine with three pages task 1 has a page and forks task 2; then it writes to the page. In need of
      a page for the copy, get_free_page takes the shared one from both tasks, and un_wp_page goes on to take
      it from task 1 once more: its reference byte is one too low. */
  method CopyGoesWrong(dev: seq<Page>) returns (mem: Memory)
    requires |dev| == SWAP_BITS
    ensures mem.Wired() && OneShort(mem.Abs(), 302) && !CountsOk(mem.Abs())
  {
    hide InvBut, View, GetPage, Keeps, Bare, Single, Pair, CountsOk, OneShort;
    mem := Started(dev, 301);
    mem.ZeroBacked(mem.Abs(), 16384);
    LoadFirst(mem, 16384, ZeroPage(), 45);
    ForkSingle(mem);
    PairLost(mem.Abs());
    PairEntry(mem.Abs());
    var ok := mem.UnWpPage(16384);
    CountsOff(mem.Abs(), 302);
  }

  lemma PairEntry(m: Vm)
    requires Pair(m)
    ensures m.pte[16384] == Present(302, false, false)
  {
  }

  /** The page of task 1 comes to be shared with task 2, which gets the last free page as its table. */
  method ForkSingle(mem: Memory)
    requires mem.Valid() && Single(mem.Abs(), 16384, 45) && NoPrograms(mem.Abs())
    modifies mem, mem.memMap, mem.phys, mem.pgDir, mem.swapBitmap, mem.swapDev
    ensures mem.Valid() && Pair(mem.Abs())
    ensures mem.dirEntry == old(mem.dirEntry) && mem.pageEntry == old(mem.pageEntry)
  {
    hide InvBut, View, GetPage, Keeps, Content, Allocated, Evicted, SomeCandidate;
    ghost var m := mem.Abs();
    assert IsFree(m, 301);
    var t := mem.GetFreePage();
    mem.InstallTable(32, t);
    mem.ShareEntries(16384, 32768);
  }
}
