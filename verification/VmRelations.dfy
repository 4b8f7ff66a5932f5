// What the longer operations of mm/ may do to the paging state, as relations between the state
// before and after: eviction, allocation under memory pressure, and the progress of a fork.

module VmRelations {
  import opened Kernel
  import opened VmState
  import opened VmSteps

  /** Entry v cannot lose its page to try_to_swap_out: the page lies below 1 MB, or several entries share
      it and all of them are dirty. */
  ghost predicate Pinned(m: Vm, v: nat) {
    && v < VM_SIZE && m.pte[v].Present? && m.pte[v].page < |m.frames|
    && (LOW_PAGE <= m.pte[v].page ==>
         && m.count[m.pte[v].page - LOW_PAGE] > 1
         && forall u: nat | u < VM_SIZE && KeyOf(m.pte[u]) == KeyOf(m.pte[v]) :: m.pte[u].dirty)
  }

  ghost predicate KeepsPinned(m: Vm, n: Vm) {
    forall v: nat | v < VM_SIZE && Pinned(m, v) :: Pinned(n, v) && n.pte[v] == m.pte[v]
  }

  lemma KeepsPinnedTransitive(m: Vm, k: Vm, n: Vm)
    requires KeepsPinned(m, k) && KeepsPinned(k, n)
    ensures KeepsPinned(m, n)
  {
    hide Pinned;
    assert forall v: nat | v < VM_SIZE && Pinned(m, v) :: Pinned(k, v) && k.pte[v] == m.pte[v];
  }

  /** Only swapping happened: pages left memory, and no task can tell. */
  ghost predicate Evicted(m: Vm, n: Vm) {
    && Inv(m) && Inv(n) && SameViews(m, n)
    && n.dir == m.dir && n.programs == m.programs && n.holds == m.holds && n.reserved == m.reserved
    && |n.frames| == |m.frames|
    && (forall v: nat | v < VM_SIZE :: n.pte[v] == m.pte[v] || (m.pte[v].Present? && !n.pte[v].Present?))
    && (forall p: nat | LOW_PAGE <= p < |m.frames| && m.holds[p - LOW_PAGE] > 0 :: n.frames[p] == m.frames[p])
    && (forall p: nat | p < LOW_PAGE :: n.frames[p] == m.frames[p])
    && KeepsPinned(m, n)
  }

  lemma EvictedReflexive(m: Vm)
    requires Inv(m)
    ensures Evicted(m, m)
  {
  }

  lemma EvictedTransitive(m: Vm, k: Vm, n: Vm)
    requires Evicted(m, k) && Evicted(k, n)
    ensures Evicted(m, n)
  {
    hide InvBut, Pinned, KeepsPinned;
    KeepsPinnedTransitive(m, k, n);
    forall v: nat | v < VM_SIZE
      ensures n.pte[v] == m.pte[v] || (m.pte[v].Present? && !n.pte[v].Present?)
      ensures View(m, v) == View(n, v)
    {
      assert k.pte[v] == m.pte[v] || (m.pte[v].Present? && !k.pte[v].Present?);
      assert View(m, v) == View(k, v) && View(k, v) == View(n, v);
    }
  }

  lemma SameViewsTransitive(m: Vm, k: Vm, n: Vm)
    requires SameViews(m, k) && SameViews(k, n)
    ensures SameViews(m, n)
  {
    assert forall v: nat | v < VM_SIZE :: View(m, v) == View(k, v) && View(k, v) == View(n, v);
  }

  lemma SameViewsBut(m: Vm, k: Vm, n: Vm, v: nat)
    requires v < VM_SIZE && SameViews(m, k) && View(m, v) == View(n, v)
    requires forall w: nat | w < VM_SIZE && w != v :: View(n, w) == View(k, w)
    ensures SameViews(m, n)
  {
    forall w: nat | w < VM_SIZE ensures View(m, w) == View(n, w) { assert View(m, w) == View(k, w); }
  }

  /** Entry w, absent and backed by the page of entry v, now shows that page. */
  lemma SameViewsShared(m: Vm, w: nat, v: nat, n: Vm)
    requires v < VM_SIZE && w < VM_SIZE && View(m, v) == View(m, w)
    requires forall u: nat | u < VM_SIZE :: View(n, u) == View(m, if u == w then v else u)
    ensures SameViews(m, n)
  {
  }

  ghost function Resident(m: Vm): set<nat>
  {
    set v: nat | v < |m.pte| && m.pte[v].Present?
  }

  /** Main-memory entry v can be swapped out: it is clean, or unshared with a slot to spare. */
  ghost predicate Swappable(m: Vm, v: nat)
    requires v < VM_SIZE
  {
    && m.pte[v].Present? && LOW_PAGE <= m.pte[v].page < |m.frames|
    && (m.pte[v].dirty ==>
         m.count[m.pte[v].page - LOW_PAGE] == 1 && exists s: nat :: 0 < s < SWAP_BITS && m.slots[s])
  }

  /** The lowest free slot, which get_swap_page takes. */
  ghost predicate LowestSlot(m: Vm, s: nat)
  {
    0 < s < SWAP_BITS && m.slots[s] && forall r: nat | 0 < r < s :: !m.slots[r]
  }

  /** try_to_swap_out succeeded on entry v. */
  ghost predicate SwappedOut(m: Vm, v: nat, n: Vm)
    requires Inv(m) && v < VM_SIZE && Swappable(m, v)
  {
    if m.pte[v].dirty then exists s: nat :: LowestSlot(m, s) && n == SwapOutTo(m, v, s)
    else m.count[m.pte[v].page - LOW_PAGE] > 0 && n == Unmap(m, v)
  }

  lemma SwappedOutPinned(m: Vm, v: nat, n: Vm)
    requires Inv(m) && v < VM_SIZE && Swappable(m, v) && SwappedOut(m, v, n)
    ensures KeepsPinned(m, n)
  {
    hide InvBut;
    assert forall u: nat | u < VM_SIZE && u != v :: n.pte[u] == m.pte[u];
    assert !n.pte[v].Present?;
    forall u: nat | Pinned(m, u) ensures Pinned(n, u) && n.pte[u] == m.pte[u] {
      assert KeyOf(m.pte[u]) != KeyOf(m.pte[v]);
    }
  }

  lemma SwappedOutOk(m: Vm, v: nat, n: Vm)
    requires Inv(m) && v < VM_SIZE && Swappable(m, v) && SwappedOut(m, v, n)
    ensures Evicted(m, n) && Resident(n) < Resident(m)
  {
    MappedCount(m, v);
    if m.pte[v].dirty {
      var s: nat :| LowestSlot(m, s) && n == SwapOutTo(m, v, s);
      SwapOutToOk(m, v, s);
    } else {
      DropCleanOk(m, v);
    }
    SwappedOutPinned(m, v, n);
    assert v in Resident(m) && v !in Resident(n);
    assert forall w: nat | w in Resident(n) :: w in Resident(m);
  }

  /** get_free_page returned page p, perhaps after swapping. */
  ghost predicate Allocated(m: Vm, n: Vm, p: nat) {
    && Inv(m) && Inv(n) && SameViews(m, n) && IsHeld(n, p) && p < |m.frames|
    && n.frames[p] == ZeroPage() && m.holds[p - LOW_PAGE] == 0
    && n.dir == m.dir && n.programs == m.programs && n.reserved == m.reserved
    && n.holds == m.holds[p - LOW_PAGE := 1] && |n.frames| == |m.frames|
    && (forall v: nat | v < VM_SIZE :: n.pte[v] == m.pte[v] || (m.pte[v].Present? && !n.pte[v].Present?))
    && (forall q: nat | LOW_PAGE <= q < |m.frames| && m.holds[q - LOW_PAGE] > 0 :: n.frames[q] == m.frames[q])
    && (forall q: nat | q < LOW_PAGE :: n.frames[q] == m.frames[q])
    && KeepsPinned(m, n)
  }

  lemma AllocPinned(m: Vm, p: nat)
    requires IsFree(m, p)
    ensures KeepsPinned(m, Alloc(m, p))
  {
    forall u: nat | Pinned(m, u) ensures Pinned(Alloc(m, p), u) { assert m.pte[u].page != p; }
  }

  lemma AllocatedOk(m: Vm, k: Vm, p: nat)
    requires Evicted(m, k) && IsFree(k, p)
    ensures Allocated(m, Alloc(k, p), p)
  {
    hide InvBut, View, Pinned, KeepsPinned;
    AllocOk(k, p);
    FreePageUnused(k, p);
    var n := Alloc(k, p);
    AllocPinned(k, p);
    KeepsPinnedTransitive(m, k, n);
    SameViewsTransitive(m, k, n);
  }

  ghost predicate SomeFree(m: Vm) {
    exists p: nat :: IsFree(m, p)
  }

  /** The free page get_free_page prefers. */
  ghost predicate HighestFree(m: Vm, p: nat) {
    IsFree(m, p) && forall q: nat | p < q < |m.frames| :: !IsFree(m, q)
  }

  /** un_wp_page on a shared page, from allocation to the rewritten entry. */
  lemma BreakSharingOk(m: Vm, p: nat, v: nat)
    requires Inv(m) && IsFree(m, p) && v < VM_SIZE && m.pte[v].Present?
    ensures Inv(Alloc(m, p)) && Copyable(Alloc(m, p), v, p)
    ensures var n := CopyOnWrite(Alloc(m, p), v, p);
      && InvBut(n, v) && SameViews(m, n) && n.holds == m.holds && n.programs == m.programs && Writable(n, v)
      && (Inv(n) <==> View(m, v) == Backing(m, v))
  {
    hide InvBut;
    var a := Alloc(m, p);
    AllocOk(m, p);
    PresentEntry(a, v);
    CopyOnWriteOk(a, v, p);
    SameViewsTransitive(m, a, CopyOnWrite(a, v, p));
    FreePageUnused(m, p);
    assert m.holds[p - LOW_PAGE := 1][p - LOW_PAGE := 0] == m.holds;
  }

  /** Entry v has its page in main memory and has not written it. */
  predicate CleanIn(m: Vm, v: nat)
    requires v < VM_SIZE
  {
    m.pte[v].Present? && !m.pte[v].dirty && m.pte[v].page >= LOW_PAGE
  }

  /** Entry w has a page clean and read-only, as one of several. */
  ghost predicate SharedAt(m: Vm, w: nat) {
    w < VM_SIZE && CleanIn(m, w) && !m.pte[w].rw && !CountOne(m, w)
  }

  /** Entry v got its own copy, in the highest free page. */
  ghost predicate CopiedAlone(m: Vm, v: nat, n: Vm) {
    exists p: nat :: HighestFree(m, p) && Copyable(Alloc(m, p), v, p) && n == CopyOnWrite(Alloc(m, p), v, p)
  }

  /** The same when get_free_page had to swap for page p, but left entry v alone. */
  lemma CopiedOk(m: Vm, a: Vm, p: nat, v: nat)
    requires Allocated(m, a, p) && v < VM_SIZE && m.pte[v].Present? && a.pte[v] == m.pte[v]
    ensures Copyable(a, v, p)
    ensures var n := CopyOnWrite(a, v, p);
      && InvBut(n, v) && SameViews(m, n) && n.holds == m.holds && n.programs == m.programs && Writable(n, v)
      && (Inv(n) <==> View(m, v) == Backing(m, v))
  {
    hide InvBut, Pinned;
    PresentEntry(a, v);
    CopyOnWriteOk(a, v, p);
    SameViewsTransitive(m, a, CopyOnWrite(a, v, p));
    assert View(m, v) == View(a, v) && Backing(m, v) == Backing(a, v);
    CopyOnWriteIs(a, v, p);
    assert m.holds[p - LOW_PAGE := 1][p - LOW_PAGE := 0] == m.holds;
  }

  // ---------------------------------------------------------------- mapping one page

  /** Held page p became the page of entry v, in a new table if there was none; others may be swapped. */
  ghost predicate Mapped(m: Vm, n: Vm, v: nat, p: nat, dirty: bool) {
    && Inv(m) && Inv(n) && v < VM_SIZE && IsHeld(m, p)
    && n.pte[v] == Present(p, true, dirty) && n.frames[p] == m.frames[p]
    && (forall w: nat | w < VM_SIZE && w != v :: View(n, w) == View(m, w))
    && n.programs == m.programs && n.reserved == m.reserved && |n.frames| == |m.frames|
    && n.holds == m.holds[p - LOW_PAGE := 0]
    && (forall d: nat | d < TABLE_SIZE && d != v / 1024 :: n.dir[d] == m.dir[d])
    && (forall w: nat | w < VM_SIZE && w != v :: n.pte[w] == m.pte[w] || (m.pte[w].Present? && !n.pte[w].Present?))
  }

  /** Entry w has become a second user of the page of entry v. */
  ghost predicate Shared(m: Vm, v: nat, w: nat, n: Vm) {
    && Shareable(m, v, w)
    && (m.pte[v].page >= LOW_PAGE ==> m.count[m.pte[v].page - LOW_PAGE] < 255)
    && n == Share(m, v, w)
  }

  /** Logical page lp of program g belongs to file f, executable or library. */
  predicate RunsFrom(g: Program, f: File, lp: nat) {
    if lp < LIBRARY_PAGE then g.executable == Some(f) else g.library == Some(f)
  }

  lemma SameContent(g: Program, h: Program, f: File, lp: nat)
    requires RunsFrom(g, f, lp) && RunsFrom(h, f, lp)
    ensures Content(g, lp) == Content(h, lp)
  {
  }

  /** Task q runs file f too and has page lp clean in main memory. */
  ghost predicate CanShareFrom(m: Vm, f: File, lp: nat, t: nat, q: nat)
    requires lp < TASK_PAGES
  {
    && 0 < q < NR_TASKS && q != t && RunsFrom(m.programs[q], f, lp)
    && CleanIn(m, q * TASK_PAGES + lp)
  }

  /** do_no_page finds a page of another task to share. */
  ghost predicate SharesPage(m: Vm, t: nat, lp: nat, users: nat)
    requires t < NR_TASKS && lp < TASK_PAGES
  {
    && users >= 2 && FileAt(m.programs[t], lp).Some?
    && exists q: nat :: CanShareFrom(m, FileAt(m.programs[t], lp).value, lp, t, q)
  }

  /** The task whose page share_page tries first, of those that have one. */
  ghost predicate FirstSharer(m: Vm, f: File, lp: nat, t: nat, q: nat)
    requires lp < TASK_PAGES
  {
    CanShareFrom(m, f, lp, t, q) && forall r: nat | q < r < NR_TASKS :: !CanShareFrom(m, f, lp, t, r)
  }

  /** Directory slot d has a table, in a page taken for it if necessary; others may have been swapped. */
  ghost predicate Tabled(m: Vm, n: Vm, d: nat) {
    && Inv(m) && Inv(n) && SameViews(m, n) && d < TABLE_SIZE && n.dir[d].Some?
    && n.programs == m.programs && n.reserved == m.reserved && n.holds == m.holds && |n.frames| == |m.frames|
    && (forall c: nat | c < TABLE_SIZE && c != d :: n.dir[c] == m.dir[c])
    && (forall v: nat | v < VM_SIZE :: n.pte[v] == m.pte[v] || (m.pte[v].Present? && !n.pte[v].Present?))
    && (forall q: nat | LOW_PAGE <= q < |m.frames| && m.holds[q - LOW_PAGE] > 0 :: n.frames[q] == m.frames[q])
  }

  lemma TabledSame(m: Vm, d: nat)
    requires Inv(m) && d < TABLE_SIZE && m.dir[d].Some?
    ensures Tabled(m, m, d)
  {
    hide InvBut;
  }

  lemma TabledNew(m: Vm, a: Vm, d: nat, p: nat)
    requires Allocated(m, a, p) && TASK_DIRS <= d < TABLE_SIZE && m.dir[d].None?
    ensures IsHeld(a, p) && a.dir[d].None? && Tabled(m, SetTable(a, d, p), d)
  {
    hide InvBut;
    SetTableOk(a, d, p);
    SameViewsTransitive(m, a, SetTable(a, d, p));
  }

  lemma TabledMap(m: Vm, b: Vm, v: nat, p: nat, dirty: bool)
    requires v < VM_SIZE && Tabled(m, b, v / 1024) && IsHeld(m, p) && m.pte[v] == Absent
    requires dirty || m.frames[p] == Backing(m, v)
    ensures IsHeld(b, p) && Mappable(b, v) && Inv(MapHeld(b, v, p, dirty))
    ensures Mapped(m, MapHeld(b, v, p, dirty), v, p, dirty)
  {
    hide InvBut, View;
    MapHeldOk(b, v, p, dirty);
    assert forall w: nat | w < VM_SIZE :: View(m, w) == View(b, w);
  }

  // ---------------------------------------------------------------- teardown

  ghost predicate InTables(v: nat, d0: nat, n: nat) {
    d0 * 1024 <= v < (d0 + n) * 1024
  }

  /** free_page_tables, from slot d0 on, has given back the tables below d and the pages below next. */
  ghost predicate Clearing(m: Vm, n: Vm, d0: nat, d: nat, next: nat) {
    && Inv(m) && Inv(n) && d0 <= d <= TABLE_SIZE && d * 1024 <= next <= VM_SIZE
    && (forall v: nat | v < VM_SIZE :: n.pte[v] == if d0 * 1024 <= v < next then Absent else m.pte[v])
    && (forall c: nat | c < TABLE_SIZE :: n.dir[c] == if d0 <= c < d then None else m.dir[c])
    && (forall v: nat | v < VM_SIZE :: View(n, v) == if d0 * 1024 <= v < next then Backing(m, v) else View(m, v))
    && n.programs == m.programs && n.holds == m.holds && n.reserved == m.reserved
    && n.frames == m.frames && n.disk == m.disk
  }

  /** Everything below directory slots d0..d0+k has been given back, everything else is untouched. */
  ghost predicate Freed(m: Vm, n: Vm, d0: nat, k: nat) {
    d0 + k <= TABLE_SIZE && Clearing(m, n, d0, d0 + k, (d0 + k) * 1024)
  }

  lemma ClearNothing(m: Vm, d0: nat)
    requires Inv(m) && d0 <= TABLE_SIZE
    ensures Clearing(m, m, d0, d0, d0 * 1024)
  {
  }

  lemma AbsentView(m: Vm, v: nat)
    requires v < VM_SIZE && m.pte[v] == Absent
    ensures View(m, v) == Backing(m, v)
  {
  }

  lemma ClearAbsent(m: Vm, n: Vm, d0: nat, d: nat, v: nat)
    requires Clearing(m, n, d0, d, v) && v < VM_SIZE && d0 * 1024 <= v && n.pte[v].Absent?
    ensures Clearing(m, n, d0, d, v + 1)
  {
    hide InvBut, View, Content;
    AbsentView(n, v);
  }

  lemma ClearPresent(m: Vm, n: Vm, d0: nat, d: nat, v: nat)
    requires Clearing(m, n, d0, d, v) && v < VM_SIZE && d0 * 1024 <= v && n.pte[v].Present?
    ensures LOW_PAGE <= n.pte[v].page ==> n.pte[v].page < |n.frames| && n.count[n.pte[v].page - LOW_PAGE] > 0
    ensures Clearing(m, Unmap(n, v), d0, d, v + 1)
  {
    hide InvBut;
    UnmapOk(n, v);
  }

  lemma ClearSwapped(m: Vm, n: Vm, d0: nat, d: nat, v: nat)
    requires Clearing(m, n, d0, d, v) && v < VM_SIZE && d0 * 1024 <= v && n.pte[v].Swapped?
    ensures 0 < n.pte[v].slot < SWAP_BITS && Clearing(m, FreeSlot(n, v), d0, d, v + 1)
  {
    hide InvBut;
    SwappedSlot(n, v);
    FreeSlotOk(n, v);
  }

  lemma ClearEntry(m: Vm, n: Vm, d0: nat, d: nat, v: nat)
    requires Clearing(m, n, d0, d, v) && v < VM_SIZE && d0 * 1024 <= v
    ensures n.pte[v].Absent? ==> Clearing(m, n, d0, d, v + 1)
    ensures n.pte[v].Present? ==>
      && (LOW_PAGE <= n.pte[v].page ==> n.pte[v].page < |n.frames| && n.count[n.pte[v].page - LOW_PAGE] > 0)
      && Clearing(m, Unmap(n, v), d0, d, v + 1)
    ensures n.pte[v].Swapped? ==> 0 < n.pte[v].slot < SWAP_BITS && Clearing(m, FreeSlot(n, v), d0, d, v + 1)
  {
    hide InvBut, Clearing;
    match n.pte[v]
    case Absent => ClearAbsent(m, n, d0, d, v);
    case Present(_, _, _) => ClearPresent(m, n, d0, d, v);
    case Swapped(_) => ClearSwapped(m, n, d0, d, v);
  }

  /** A slot without a table has nothing to clear. */
  lemma ClearNoTable(m: Vm, n: Vm, d0: nat, d: nat)
    requires d < TABLE_SIZE && d0 <= d && Clearing(m, n, d0, d, d * 1024) && n.dir[d].None?
    ensures Clearing(m, n, d0, d + 1, (d + 1) * 1024)
  {
    forall v: nat | d * 1024 <= v < (d + 1) * 1024 ensures n.pte[v] == Absent { assert EntryOk(n, v); }
    hide InvBut;
  }

  lemma ClearTable(m: Vm, n: Vm, d0: nat, d: nat)
    requires d < TABLE_SIZE && d0 <= d && Clearing(m, n, d0, d, (d + 1) * 1024) && n.dir[d].Some?
    ensures LOW_PAGE <= n.dir[d].value < |n.frames| && n.count[n.dir[d].value - LOW_PAGE] == 1
    ensures TableEmpty(n, d) && Clearing(m, DropTable(n, d), d0, d + 1, (d + 1) * 1024)
  {
    hide InvBut;
    TableCount(n, d);
    DropTableOk(n, d);
    assert forall v: nat | v < VM_SIZE :: View(n, v) == View(DropTable(n, d), v);
  }

  // ---------------------------------------------------------------- fork

  /** Where in the parent the child's page v comes from. */
  function Source(v: nat, fd: nat, td: nat): int {
    v + fd * 1024 - td * 1024
  }

  /** copy_page_tables, from slots fd.. to slots td.., has dealt with the child's pages below `next`. */
  ghost predicate Copying(m: Vm, n: Vm, fd: nat, td: nat, size: nat, next: nat) {
    && Inv(m) && Inv(n)
    && fd + size <= TABLE_SIZE && td + size <= TABLE_SIZE && td * 1024 <= next <= (td + size) * 1024
    && n.programs == m.programs && n.holds == m.holds && n.reserved == m.reserved && |n.frames| == |m.frames|
    && (forall d: nat | d < TABLE_SIZE && !(td <= d < td + size) :: n.dir[d] == m.dir[d])
    && (forall v: nat | v < VM_SIZE && !InTables(v, td, size) :: View(n, v) == View(m, v))
    && (forall v: nat | v < VM_SIZE && !InTables(v, td, size) && m.pte[v] == Absent :: n.pte[v] == Absent)
    && (forall v: nat | td * 1024 <= v < next :: View(n, v) == View(m, Source(v, fd, td)))
    && (forall v: nat | next <= v < (td + size) * 1024 :: n.pte[v] == Absent)
  }

  /** Source and target of a fork: disjoint, at the same logical place, running the same program. */
  ghost predicate CopyRange(m: Vm, fd: nat, td: nat, size: nat) {
    && TASK_DIRS <= td && fd + size <= TABLE_SIZE && td + size <= TABLE_SIZE
    && (fd + size <= td || td + size <= fd) && fd % TASK_DIRS == td % TASK_DIRS
    && (forall v: nat | InTables(v, td, size) :: Backing(m, v) == Backing(m, Source(v, fd, td)))
  }

  lemma AddTasks(w: int, c: int)
    ensures (w + 16384 * c) % 16384 == w % 16384
  {
    assert w == 16384 * (w / 16384) + w % 16384;
    assert w + 16384 * c == 16384 * (w / 16384 + c) + w % 16384;
  }

  lemma SourceOk(m: Vm, fd: nat, td: nat, size: nat, w: nat)
    requires CopyRange(m, fd, td, size) && InTables(w, td, size)
    ensures var v := Source(w, fd, td);
      0 <= v < VM_SIZE && v != w && !InTables(v, td, size) && v % TASK_PAGES == w % TASK_PAGES
      && Backing(m, w) == Backing(m, v)
  {
    AddTasks(w, fd / 16 - td / 16);
    assert Source(w, fd, td) == w + 16384 * (fd / 16 - td / 16);
  }

  lemma CopyNothing(m: Vm, fd: nat, td: nat, size: nat)
    requires Inv(m) && CopyRange(m, fd, td, size) && forall d: nat | td <= d < td + size :: m.dir[d].None?
    ensures Copying(m, m, fd, td, size, td * 1024)
  {
    forall v: nat | td * 1024 <= v < (td + size) * 1024 ensures m.pte[v] == Absent {
      assert EntryOk(m, v) && td <= v / 1024 < td + size;
    }
  }

  /** The parent has no table here. */
  lemma CopyNoTable(m: Vm, n: Vm, fd: nat, td: nat, size: nat, d: nat)
    requires CopyRange(m, fd, td, size) && Copying(m, n, fd, td, size, d * 1024) && td <= d < td + size
    requires n.dir[fd + d - td].None?
    ensures Copying(m, n, fd, td, size, (d + 1) * 1024)
  {
    hide InvBut;
    TableAbsent(n, fd + d - td);
    forall w: nat | d * 1024 <= w < (d + 1) * 1024 ensures View(n, w) == View(m, Source(w, fd, td)) {
      SkippedView(m, n, fd, td, size, d * 1024, w);
    }
  }

  /** A page still absent in the child, over a page absent in the parent. */
  lemma SkippedView(m: Vm, n: Vm, fd: nat, td: nat, size: nat, next: nat, w: nat)
    requires CopyRange(m, fd, td, size) && Copying(m, n, fd, td, size, next) && next <= w < (td + size) * 1024
    requires 0 <= Source(w, fd, td) < VM_SIZE && n.pte[Source(w, fd, td)] == Absent
    ensures View(n, w) == View(m, Source(w, fd, td))
  {
    hide InvBut;
    var v: nat := Source(w, fd, td);
    SourceOk(m, fd, td, size, w);
    assert n.pte[w] == Absent;
    assert View(n, v) == View(m, v);
  }

  /** The next entry was absent in the parent: nothing to do. */
  lemma CopySkip(m: Vm, n: Vm, fd: nat, td: nat, size: nat, w: nat)
    requires CopyRange(m, fd, td, size) && Copying(m, n, fd, td, size, w) && w < (td + size) * 1024
    requires 0 <= Source(w, fd, td) < VM_SIZE && n.pte[Source(w, fd, td)] == Absent
    ensures Copying(m, n, fd, td, size, w + 1)
  {
    hide InvBut, View, Backing, CopyRange, InTables;
    SkippedView(m, n, fd, td, size, w, w);
  }

  /** Swapping in between changes nothing that matters. */
  lemma CopyEvicted(m: Vm, n: Vm, n': Vm, fd: nat, td: nat, size: nat, next: nat)
    requires Copying(m, n, fd, td, size, next) && Evicted(n, n')
    ensures Copying(m, n', fd, td, size, next)
  {
    hide InvBut;
    assert forall v: nat | v < VM_SIZE :: View(n, v) == View(n', v);
  }

  /** The table for the current slot of the child is in place. */
  lemma CopyTable(m: Vm, n: Vm, a: Vm, p: nat, fd: nat, td: nat, size: nat, next: nat, d: nat)
    requires Copying(m, n, fd, td, size, next) && Allocated(n, a, p)
    requires td <= d < td + size && TASK_DIRS <= d && a.dir[d].None?
    ensures Copying(m, SetTable(a, d, p), fd, td, size, next)
  {
    hide InvBut;
    SetTableOk(a, d, p);
    var n' := SetTable(a, d, p);
    assert forall v: nat | v < VM_SIZE :: View(n, v) == View(a, v) && View(a, v) == View(n', v);
    assert n'.holds == n.holds;
  }

  /** The state reached from n by a step that only rewrote entries v and w, giving w the page of v. */
  lemma CopyStep(m: Vm, n: Vm, n': Vm, fd: nat, td: nat, size: nat, w: nat)
    requires CopyRange(m, fd, td, size) && Copying(m, n, fd, td, size, w) && w < (td + size) * 1024 && Inv(n')
    requires n'.programs == n.programs && n'.holds == n.holds && n'.reserved == n.reserved
    requires |n'.frames| == |n.frames| && n'.dir == n.dir
    requires var v := Source(w, fd, td); 0 <= v < VM_SIZE && n.pte[v] != Absent
    requires forall u: nat | u < VM_SIZE :: View(n', u) == View(n, if u == w then Source(w, fd, td) else u)
    requires forall u: nat | u < VM_SIZE && u != w && n.pte[u] == Absent :: n'.pte[u] == Absent
    ensures Copying(m, n', fd, td, size, w + 1)
  {
    hide InvBut;
    SourceOk(m, fd, td, size, w);
    assert View(n', w) == View(n, Source(w, fd, td)) == View(m, Source(w, fd, td));
  }

  /** A present entry can be shared. */
  lemma CopyShareable(m: Vm, n: Vm, fd: nat, td: nat, size: nat, w: nat)
    requires CopyRange(m, fd, td, size) && Copying(m, n, fd, td, size, w) && w < (td + size) * 1024
    requires 0 <= Source(w, fd, td) < VM_SIZE && n.pte[Source(w, fd, td)].Present? && n.dir[w / 1024].Some?
    ensures Shareable(n, Source(w, fd, td), w) && Backing(n, Source(w, fd, td)) == Backing(n, w)
  {
    hide InvBut;
    SourceOk(m, fd, td, size, w);
    PresentEntry(n, Source(w, fd, td));
  }

  /** A swapped entry is read back for the parent and its slot goes to the child. */
  lemma CopySwapped(m: Vm, n: Vm, a: Vm, p: nat, fd: nat, td: nat, size: nat, w: nat)
    requires CopyRange(m, fd, td, size) && Copying(m, n, fd, td, size, w) && w < (td + size) * 1024
    requires 0 <= Source(w, fd, td) < VM_SIZE && n.pte[Source(w, fd, td)].Swapped?
    requires n.dir[w / 1024].Some? && Allocated(n, a, p)
    ensures var v: nat := Source(w, fd, td);
      && Mappable(a, w) && a.pte[v].Swapped? && a.pte[v].slot < SWAP_BITS && a.dir[v / 1024].Some?
      && Copying(m, GiveSlot(a, v, w, p), fd, td, size, w + 1)
  {
    hide InvBut;
    var v: nat := Source(w, fd, td);
    SourceOk(m, fd, td, size, w);
    assert a.pte[v] == n.pte[v] && a.pte[w] == Absent;
    GiveSlotOk(a, v, w, p);
    var n' := GiveSlot(a, v, w, p);
    assert n'.holds == n.holds;
    assert forall u: nat | u < VM_SIZE :: View(n, u) == View(a, u);
    CopyStep(m, n, n', fd, td, size, w);
  }

  /** The first fork has entered i pages of the kernel below 1 MB in the table of slot td. */
  ghost predicate KernelCopied(m: Vm, n: Vm, td: nat, i: nat)
    requires td < TABLE_SIZE && i <= 160
  {
    && n.dir[td].Some? && n.programs == m.programs && n.holds == m.holds && |n.frames| == |m.frames|
    && (forall q: nat | q < LOW_PAGE :: n.frames[q] == m.frames[q])
    && (forall v: nat | td * 1024 + i <= v < td * 1024 + 1024 :: n.pte[v] == Absent)
    && (forall v: nat | v < VM_SIZE ::
         View(n, v) == if td * 1024 <= v < td * 1024 + i then m.frames[v - td * 1024] else View(m, v))
  }

  // ---------------------------------------------------------------- copy_mem

  lemma TableAbsent(m: Vm, d: nat)
    requires Inv(m) && d < TABLE_SIZE && m.dir[d].None?
    ensures TableEmpty(m, d)
  {
    forall v: nat | d * 1024 <= v < d * 1024 + 1024 ensures m.pte[v] == Absent { assert EntryOk(m, v); }
  }

  ghost predicate NoTablesOf(m: Vm, t: nat)
    requires t < NR_TASKS
  {
    forall d: nat | t * TASK_DIRS <= d < (t + 1) * TASK_DIRS :: m.dir[d].None?
  }

  lemma IdleEmpty(m: Vm, t: nat)
    requires Inv(m) && t < NR_TASKS && NoTablesOf(m, t)
    ensures RangeEmpty(m, t * TASK_PAGES, (t + 1) * TASK_PAGES)
  {
    forall v: nat | t * TASK_PAGES <= v < (t + 1) * TASK_PAGES ensures m.pte[v] == Absent {
      assert EntryOk(m, v) && t * TASK_DIRS <= v / 1024 < (t + 1) * TASK_DIRS;
    }
  }

  lemma PageOf(t: nat, v: nat)
    requires t < NR_TASKS
    ensures v / TASK_PAGES == t <==> t * TASK_PAGES <= v < (t + 1) * TASK_PAGES
    ensures v / TASK_PAGES == t ==> v % TASK_PAGES == v - t * TASK_PAGES
  {
  }

  /** The state in which copy_mem calls copy_page_tables, given the program of task t for child c. */
  lemma ForkRange(m: Vm, t: nat, c: nat, n: nat)
    requires 0 < t < NR_TASKS && 0 < c < NR_TASKS && t != c && n <= TASK_DIRS
    ensures CopyRange(SetProgram(m, c, m.programs[t]), t * TASK_DIRS, c * TASK_DIRS, n)
  {
    hide Content;
    var k := SetProgram(m, c, m.programs[t]);
    var fd, td := t * TASK_DIRS, c * TASK_DIRS;
    forall w: nat | InTables(w, td, n) ensures Backing(k, w) == Backing(k, Source(w, fd, td)) {
      PageOf(c, w);
      PageOf(t, Source(w, fd, td));
    }
  }

  /** What a child of task t, given its first `size` directory slots, sees at logical page lp. */
  ghost function ForkView(m: Vm, t: nat, size: nat, lp: nat): Page
    requires t < NR_TASKS && lp < TASK_PAGES && size <= TASK_DIRS
  {
    if lp < size * 1024 then View(m, t * TASK_PAGES + lp) else Content(m.programs[t], lp)
  }

  lemma CopiedViews(m: Vm, k: Vm, n: Vm, t: nat, c: nat, size: nat)
    requires Inv(m) && 0 < t < NR_TASKS && 0 < c < NR_TASKS && t != c && size <= TASK_DIRS && NoTablesOf(m, c)
    requires k == SetProgram(m, c, m.programs[t])
    requires Copying(k, n, t * TASK_DIRS, c * TASK_DIRS, size, (c * TASK_DIRS + size) * 1024)
    ensures forall v: nat | v < VM_SIZE && v / TASK_PAGES != c :: View(n, v) == View(m, v)
    ensures forall v: nat | v < VM_SIZE && v / TASK_PAGES == c :: View(n, v) == ForkView(m, t, size, v % TASK_PAGES)
    ensures n.holds == m.holds && n.programs == k.programs
  {
    hide InvBut, InTables, View, Content;
    IdleEmpty(m, c);
    SetProgramOk(m, c, m.programs[t]);
    var td := c * TASK_DIRS;
    forall v: nat | v < VM_SIZE && v / TASK_PAGES != c ensures View(n, v) == View(m, v) { ChildTables(c, size, v); }
    forall v: nat | v < VM_SIZE && v / TASK_PAGES == c
      ensures View(n, v) == ForkView(m, t, size, v % TASK_PAGES)
    {
      ChildTables(c, size, v);
      if v % TASK_PAGES < size * 1024 {
        assert Source(v, t * TASK_DIRS, td) == t * TASK_PAGES + v % TASK_PAGES;
        Place(t, v % TASK_PAGES);
      }
    }
  }

  /** The pages below the first `size` tables of task c. */
  lemma ChildTables(c: nat, size: nat, v: nat)
    requires c < NR_TASKS && size <= TASK_DIRS
    ensures InTables(v, c * TASK_DIRS, size) <==> v / TASK_PAGES == c && v % TASK_PAGES < size * 1024
    ensures v / TASK_PAGES == c ==> v % TASK_PAGES == v - c * TASK_PAGES
  {
    PageOf(c, v);
  }

  lemma UncopiedViews(m: Vm, k: Vm, h: Vm, n: Vm, t: nat, c: nat, size: nat)
    requires Inv(m) && 0 < t < NR_TASKS && 0 < c < NR_TASKS && t != c && size <= TASK_DIRS && NoTablesOf(m, c)
    requires k == SetProgram(m, c, m.programs[t])
    requires exists next: nat :: Copying(k, h, t * TASK_DIRS, c * TASK_DIRS, size, next)
    requires Freed(h, n, c * TASK_DIRS, size)
    ensures forall v: nat | v < VM_SIZE && v / TASK_PAGES != c :: View(n, v) == View(m, v)
    ensures forall v: nat | v < VM_SIZE && v / TASK_PAGES == c :: View(n, v) == Content(m.programs[t], v % TASK_PAGES)
    ensures NoTablesOf(n, c)
    ensures n.holds == m.holds && n.programs == k.programs
  {
    hide InvBut;
    IdleEmpty(m, c);
    SetProgramOk(m, c, m.programs[t]);
    var td := c * TASK_DIRS;
    var next: nat :| Copying(k, h, t * TASK_DIRS, td, size, next);
    forall v: nat | v < VM_SIZE && v / TASK_PAGES != c ensures View(n, v) == View(m, v) {
      PageOf(c, v);
      assert !InTables(v, td, size);
      assert View(n, v) == View(h, v) == View(k, v);
    }
    forall v: nat | v < VM_SIZE && v / TASK_PAGES == c ensures View(n, v) == Content(m.programs[t], v % TASK_PAGES) {
      PageOf(c, v);
      if !InTables(v, td, size) { assert View(n, v) == View(h, v) == View(k, v); }
    }
  }

  // ---------------------------------------------------------------- start

  /** No table, no entry, every reference the kernel's own, no swap space. */
  ghost predicate Initial(m: Vm) {
    && (forall v: nat | v < VM_SIZE :: m.pte[v] == Absent)
    && (forall d: nat | d < TABLE_SIZE :: m.dir[d].None?)
    && (forall i: nat | i < PAGING_PAGES :: m.count[i] == m.holds[i])
    && (forall i: nat | i < PAGING_PAGES && LOW_PAGE + i >= |m.frames| :: m.holds[i] > 0)
    && (forall s: nat | s < SWAP_BITS :: !m.slots[s] && s in m.reserved)
  }

  lemma InitialInv(m: Vm)
    requires Initial(m)
    ensures Inv(m)
  {
    forall p: nat
      ensures |Refs(m.pte, PageKey(p))| == 0 && |Tables(m.dir, p)| == 0
      ensures LOW_PAGE <= p < LOW_PAGE + PAGING_PAGES ==>
        (p >= |m.frames| ==> m.holds[p - LOW_PAGE] > 0) && m.count[p - LOW_PAGE] == m.holds[p - LOW_PAGE]
    {
      assert Refs(m.pte, PageKey(p)) == {} && Tables(m.dir, p) == {};
    }
    forall s: nat ensures |Refs(m.pte, SlotKey(s))| == 0 { assert Refs(m.pte, SlotKey(s)) == {}; }
  }

  /** Swap space appears: until now no slot was usable. */
  lemma NewSwapSpace(m: Vm, n: Vm)
    requires Inv(m) && forall s: nat | s < SWAP_BITS :: s in m.reserved
    requires n == m.(slots := n.slots, reserved := n.reserved)
    requires forall s: nat | s < SWAP_BITS :: s in n.reserved <==> !n.slots[s]
    requires !n.slots[0]
    ensures Inv(n) && SameViews(m, n)
  {
    forall v: nat | v < VM_SIZE ensures EntryOk(n, v) && CleanAt(n, v) { assert EntryOk(m, v) && CleanAt(m, v); }
  }

  // ---------------------------------------------------------------- stale values

  function Recount(m: Vm, q: nat, c: byte): VmData
    requires LOW_PAGE <= q < LOW_PAGE + PAGING_PAGES
  {
    m.(count := m.count[q - LOW_PAGE := c])
  }

  /** All reference bytes are right but that of page q, which is one too low. */
  ghost predicate OneShort(m: Vm, q: nat) {
    && LOW_PAGE <= q < LOW_PAGE + PAGING_PAGES && CountsOk(Recount(m, q, Up(m.count[q - LOW_PAGE])))
  }

  /** One too high. */
  ghost predicate OneOver(m: Vm, q: nat) {
    && LOW_PAGE <= q < LOW_PAGE + PAGING_PAGES && CountsOk(Recount(m, q, Down(m.count[q - LOW_PAGE])))
  }

  lemma CountsOff(m: Vm, q: nat)
    requires OneShort(m, q) || OneOver(m, q)
    ensures !CountsOk(m)
  {
    var c := m.count[q - LOW_PAGE];
    var uses := |Refs(m.pte, PageKey(q))| + |Tables(m.dir, q)| + m.holds[q - LOW_PAGE];
    assert OneShort(m, q) ==> Recount(m, q, Up(c)).count[q - LOW_PAGE] == uses;
    assert OneOver(m, q) ==> Recount(m, q, Down(c)).count[q - LOW_PAGE] == uses;
  }

  /** The state in which the code ends up that took page q away from entry v, which had lost it already. */
  lemma StaleCopy(a: Vm, v: nat, q: nat, p: nat, n: Vm)
    requires Inv(a) && IsHeld(a, p) && v < VM_SIZE && !a.pte[v].Present? && LOW_PAGE <= q < |a.frames|
    requires n == a.(count := a.count[q - LOW_PAGE := Down(a.count[q - LOW_PAGE])], frames := n.frames,
                     pte := a.pte[v := Present(p, true, false)], holds := a.holds[p - LOW_PAGE := 0])
    ensures OneShort(n, q)
  {
    forall r: nat | LOW_PAGE <= r < LOW_PAGE + PAGING_PAGES
      ensures a.count[r - LOW_PAGE] == |Refs(n.pte, PageKey(r))| + |Tables(n.dir, r)| + n.holds[r - LOW_PAGE]
    {
      RefsUpdate(a.pte, v, Present(p, true, false), PageKey(r));
    }
    assert Recount(n, q, Up(n.count[q - LOW_PAGE])).count == a.count;
  }

  /** The R/W bit cleared. */
  function Protected(e: Pte): Pte {
    if e.Present? then e.(rw := false) else e
  }

  /** try_to_share once the table is there: entry w becomes what entry v is now, write-protected, and page
      q is counted once more. */
  function ShareNow(b: Vm, v: nat, w: nat, q: nat): VmData
    requires v < VM_SIZE && w < VM_SIZE && LOW_PAGE <= q < LOW_PAGE + PAGING_PAGES
  {
    b.(count := b.count[q - LOW_PAGE := Up(b.count[q - LOW_PAGE])],
       pte := b.pte[v := Protected(b.pte[v])][w := Protected(b.pte[v])])
  }

  /** If entry v has lost page q, one user too many is counted. */
  lemma StaleShare(b: Vm, v: nat, w: nat, q: nat)
    requires Inv(b) && v < VM_SIZE && w < VM_SIZE && b.pte[v] == b.pte[w] == Absent && LOW_PAGE <= q < |b.frames|
    ensures OneOver(ShareNow(b, v, w, q), q)
  {
    var n := ShareNow(b, v, w, q);
    assert n.pte == b.pte;
    assert Recount(n, q, Down(n.count[q - LOW_PAGE])).count == b.count;
  }

  /** If it still has it, that is sharing. */
  lemma FreshShare(b: Vm, v: nat, w: nat)
    requires Inv(b) && Shareable(b, v, w) && b.pte[v].page >= LOW_PAGE
    ensures Shared(b, v, w, ShareNow(b, v, w, b.pte[v].page))
  {
    ShareBound(b, v, w);
  }
}
