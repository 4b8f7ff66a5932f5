// The atomic changes that mm/memory.c and mm/swap.c make to the paging state, one function each,
// and for each the lemma that it keeps the invariant and what it does to the pages tasks see.

module VmSteps {
  import opened Kernel
  import opened VmState

  // ---------------------------------------------------------------- counting

  lemma RefsUpdateAll(pte: seq<Pte>, v: nat, e: Pte)
    requires v < |pte|
    ensures forall k: Key ::
      |Refs(pte[v := e], k)| + (if KeyOf(pte[v]) == k then 1 else 0)
      == |Refs(pte, k)| + (if KeyOf(e) == k then 1 else 0)
  {
    forall k: Key
      ensures |Refs(pte[v := e], k)| + (if KeyOf(pte[v]) == k then 1 else 0)
           == |Refs(pte, k)| + (if KeyOf(e) == k then 1 else 0)
    {
      RefsUpdate(pte, v, e, k);
    }
  }

  lemma TablesUpdateAll(dir: seq<Option<nat>>, d: nat, o: Option<nat>)
    requires d < |dir|
    ensures forall p: nat ::
      |Tables(dir[d := o], p)| + (if dir[d] == Some(p) then 1 else 0)
      == |Tables(dir, p)| + (if o == Some(p) then 1 else 0)
  {
    forall p: nat
      ensures |Tables(dir[d := o], p)| + (if dir[d] == Some(p) then 1 else 0)
           == |Tables(dir, p)| + (if o == Some(p) then 1 else 0)
    {
      TablesUpdate(dir, d, o, p);
    }
  }

  lemma {:induction false} InjectiveImage(s: set<nat>, n: nat)
    requires forall v: nat | v in s :: 1 <= v / TASK_PAGES <= n
    requires forall v: nat, w: nat | v in s && w in s && v / TASK_PAGES == w / TASK_PAGES :: v == w
    ensures |s| <= n
    decreases n
  {
    if n == 0 {
      assert forall v: nat :: v !in s;
      assert s == {};
    } else if exists v: nat :: v in s && v / TASK_PAGES == n {
      var v: nat :| v in s && v / TASK_PAGES == n;
      InjectiveImage(s - {v}, n - 1);
    } else {
      InjectiveImage(s, n - 1);
    }
  }

  /** One logical page, at most 63 user tasks: the reference byte of a user page cannot wrap. */
  lemma UsersBound(m: Vm, p: nat)
    requires EntriesOk(m) && TablesOk(m) && OneOffset(m) && LOW_PAGE <= p
    ensures |Refs(m.pte, PageKey(p))| <= NR_TASKS - 1
  {
    var s := Refs(m.pte, PageKey(p));
    forall v: nat | v in s ensures m.pte[v].Present? && m.pte[v].page == p && 1 <= v / TASK_PAGES <= 63 {
      assert EntryOk(m, v);
      assert m.dir[v / 1024].Some?;
    }
    forall v: nat, w: nat | v in s && w in s && v / TASK_PAGES == w / TASK_PAGES ensures v == w {
      assert v % TASK_PAGES == w % TASK_PAGES;
    }
    InjectiveImage(s, 63);
  }

  /** A held page has no user and is no table. */
  lemma HeldUnused(m: Vm, p: nat)
    requires OnePurpose(m)
    requires LOW_PAGE <= p < LOW_PAGE + PAGING_PAGES && m.holds[p - LOW_PAGE] > 0
    ensures forall v: nat | v < VM_SIZE :: KeyOf(m.pte[v]) != PageKey(p)
    ensures forall d: nat | d < TABLE_SIZE :: m.dir[d] != Some(p)
  {
    NoRefs(m.pte, PageKey(p));
    NoTables(m.dir, p);
  }

  /** So does a page whose reference byte is zero. */
  lemma FreeUnused(m: Vm, p: nat)
    requires CountsOk(m)
    requires LOW_PAGE <= p < LOW_PAGE + PAGING_PAGES && m.count[p - LOW_PAGE] == 0
    ensures m.holds[p - LOW_PAGE] == 0
    ensures forall v: nat | v < VM_SIZE :: KeyOf(m.pte[v]) != PageKey(p)
    ensures forall d: nat | d < TABLE_SIZE :: m.dir[d] != Some(p)
  {
    NoRefs(m.pte, PageKey(p));
    NoTables(m.dir, p);
  }

  lemma FreePageUnused(m: Vm, p: nat)
    requires Inv(m) && IsFree(m, p)
    ensures m.holds[p - LOW_PAGE] == 0
    ensures forall v: nat | v < VM_SIZE :: KeyOf(m.pte[v]) != PageKey(p)
    ensures forall d: nat | d < TABLE_SIZE :: m.dir[d] != Some(p)
  {
    FreeUnused(m, p);
  }

  lemma HeldPageUnused(m: Vm, p: nat)
    requires Inv(m) && IsHeld(m, p)
    ensures forall v: nat | v < VM_SIZE :: KeyOf(m.pte[v]) != PageKey(p)
    ensures forall d: nat | d < TABLE_SIZE :: m.dir[d] != Some(p)
  {
    HeldUnused(m, p);
  }

  /** A mapped main-memory page has a positive count equal to its number of users. */
  lemma MappedCount(m: Vm, v: nat)
    requires EntriesOk(m) && OnePurpose(m) && CountsOk(m) && v < VM_SIZE
    requires m.pte[v].Present? && m.pte[v].page >= LOW_PAGE
    ensures m.pte[v].page < |m.frames|
    ensures m.holds[m.pte[v].page - LOW_PAGE] == 0 && |Tables(m.dir, m.pte[v].page)| == 0
    ensures m.count[m.pte[v].page - LOW_PAGE] == |Refs(m.pte, KeyOf(m.pte[v]))| >= 1
  {
    assert EntryOk(m, v);
    RefsOf(m.pte, v);
  }

  lemma PresentEntry(m: Vm, v: nat)
    requires Inv(m) && v < VM_SIZE && m.pte[v].Present?
    ensures m.dir[v / 1024].Some? && m.pte[v].page < |m.frames|
    ensures m.pte[v].page >= LOW_PAGE ==>
      m.holds[m.pte[v].page - LOW_PAGE] == 0 && m.count[m.pte[v].page - LOW_PAGE] > 0
  {
    assert EntryOk(m, v);
    if m.pte[v].page >= LOW_PAGE { MappedCount(m, v); }
  }

  lemma CleanView(m: Vm, v: nat)
    requires Inv(m) && v < VM_SIZE && m.pte[v].Present? && !m.pte[v].dirty && m.pte[v].page >= LOW_PAGE
    ensures View(m, v) == Backing(m, v)
  {
    assert EntryOk(m, v) && CleanAt(m, v);
  }

  /** Logical page lp of task t. */
  lemma Place(t: nat, lp: nat)
    requires t < NR_TASKS && lp < TASK_PAGES
    ensures t * TASK_PAGES + lp < VM_SIZE
    ensures (t * TASK_PAGES + lp) / TASK_PAGES == t && (t * TASK_PAGES + lp) % TASK_PAGES == lp
    ensures t * TASK_DIRS <= (t * TASK_PAGES + lp) / 1024 < (t + 1) * TASK_DIRS
  {
  }

  /** If its count is 1 it has one user. */
  lemma SoleUser(m: Vm, v: nat)
    requires EntriesOk(m) && OnePurpose(m) && CountsOk(m) && v < VM_SIZE
    requires m.pte[v].Present? && m.pte[v].page >= LOW_PAGE
    requires |Refs(m.pte, KeyOf(m.pte[v]))| == 1
    ensures forall w: nat | w < VM_SIZE && w != v :: KeyOf(m.pte[w]) != KeyOf(m.pte[v])
  {
    RefsOf(m.pte, v);
  }

  function Held(e: Pte, p: nat): int {
    if KeyOf(e) == PageKey(p) then 1 else 0
  }

  /** Entry v changes to e, and the reference bytes and kernel holds follow. */
  lemma CountsUpdate(m: Vm, n: Vm, v: nat, e: Pte)
    requires OnePurpose(m) && CountsOk(m) && v < VM_SIZE
    requires n.pte == m.pte[v := e] && n.dir == m.dir && |n.frames| == |m.frames|
    requires forall p: nat | LOW_PAGE <= p < LOW_PAGE + PAGING_PAGES ::
      && n.count[p - LOW_PAGE] - n.holds[p - LOW_PAGE] - Held(e, p)
         == m.count[p - LOW_PAGE] - m.holds[p - LOW_PAGE] - Held(m.pte[v], p)
      && (n.holds[p - LOW_PAGE] != m.holds[p - LOW_PAGE] ==> n.holds[p - LOW_PAGE] == 0 && p < |m.frames|)
    requires forall p: nat | LOW_PAGE <= p < LOW_PAGE + PAGING_PAGES && KeyOf(e) == PageKey(p) ::
      n.holds[p - LOW_PAGE] == 0 && |Tables(m.dir, p)| == 0
    ensures OnePurpose(n) && CountsOk(n)
  {
    forall p: nat | LOW_PAGE <= p < LOW_PAGE + PAGING_PAGES
      ensures |Refs(n.pte, PageKey(p))| + Held(m.pte[v], p) == |Refs(m.pte, PageKey(p))| + Held(e, p)
    {
      RefsUpdate(m.pte, v, e, PageKey(p));
    }
    forall p: nat | LOW_PAGE <= p < LOW_PAGE + PAGING_PAGES
      ensures m.holds[p - LOW_PAGE] > 0 ==> KeyOf(m.pte[v]) != PageKey(p)
    {
      if KeyOf(m.pte[v]) == PageKey(p) { RefsOf(m.pte, v); }
    }
  }

  /** Entry v changes to e, and the swap bit map follows. */
  lemma SlotsUpdate(m: Vm, n: Vm, v: nat, e: Pte)
    requires SlotsOk(m) && v < VM_SIZE && n.pte == m.pte[v := e] && n.reserved == m.reserved
    requires forall s: nat | s < SWAP_BITS ::
      && n.slots[s] == (m.slots[s] || (KeyOf(m.pte[v]) == SlotKey(s) && KeyOf(e) != SlotKey(s)))
         && (KeyOf(e) == SlotKey(s) ==> KeyOf(m.pte[v]) == SlotKey(s))
    ensures SlotsOk(n)
  {
    RefsUpdateAll(m.pte, v, e);
    forall s: nat | s < SWAP_BITS
      ensures |Refs(n.pte, SlotKey(s))| == if n.slots[s] || s in n.reserved then 0 else 1
      ensures s in n.reserved ==> !n.slots[s]
    {
      if KeyOf(m.pte[v]) == SlotKey(s) { RefsOf(m.pte, v); }
    }
  }

  /** Entry v changes to e, whose other users, if any, sit at the same logical page. */
  lemma OffsetUpdate(m: Vm, n: Vm, v: nat, e: Pte)
    requires OneOffset(m) && v < VM_SIZE && n.pte == m.pte[v := e]
    requires e.Present? && e.page >= LOW_PAGE ==>
      forall u: nat | u < VM_SIZE && u != v && KeyOf(m.pte[u]) == KeyOf(e) :: u % TASK_PAGES == v % TASK_PAGES
    ensures OneOffset(n)
  {
  }

  /** Entry v changes to e; the sharing rule needs checking only for users of the same page. */
  lemma SharedUpdate(m: Vm, n: Vm, v: nat, e: Pte)
    requires SharedReadOnly(m) && v < VM_SIZE && n.pte == m.pte[v := e]
    requires e.Present? && e.rw ==> |Refs(n.pte, KeyOf(e))| == 1
    requires e.Present? ==> forall u: nat | u < VM_SIZE && u != v && KeyOf(m.pte[u]) == KeyOf(e) :: !m.pte[u].rw
    ensures SharedReadOnly(n)
  {
    RefsUpdateAll(m.pte, v, e);
    forall u: nat | u < VM_SIZE && n.pte[u].Present? && n.pte[u].rw
      ensures |Refs(n.pte, KeyOf(n.pte[u]))| == 1
    {
      if u != v { RefsOf(m.pte, u); RefsOf(n.pte, u); }
    }
  }

  // ---------------------------------------------------------------- kernel pages

  ghost predicate IsFree(m: Vm, p: nat) {
    LOW_PAGE <= p < |m.frames| && m.count[p - LOW_PAGE] == 0
  }

  ghost predicate IsHeld(m: Vm, p: nat) {
    LOW_PAGE <= p < |m.frames| && m.holds[p - LOW_PAGE] == 1
  }

  /** get_free_page: a free page becomes the kernel's, zeroed. */
  function Alloc(m: Vm, p: nat): Vm
    requires IsFree(m, p)
  {
    m.(count := m.count[p - LOW_PAGE := 1], holds := m.holds[p - LOW_PAGE := 1], frames := m.frames[p := ZeroPage()])
  }

  lemma AllocOk(m: Vm, p: nat)
    requires Inv(m) && IsFree(m, p)
    ensures Inv(Alloc(m, p)) && SameViews(m, Alloc(m, p)) && IsHeld(Alloc(m, p), p)
  {
    FreeUnused(m, p);
    var n := Alloc(m, p);
    assert |Refs(m.pte, PageKey(p))| == 0 && |Tables(m.dir, p)| == 0;
    forall v: nat | v < VM_SIZE ensures EntryOk(n, v) && CleanAt(n, v) && View(m, v) == View(n, v) {
      assert CleanAt(m, v) && EntryOk(m, v) && KeyOf(m.pte[v]) != PageKey(p);
    }
    assert CountsOk(n) && OnePurpose(n);
  }

  /** free_page on a page the kernel holds. */
  function Release(m: Vm, p: nat): Vm
    requires IsHeld(m, p) && m.count[p - LOW_PAGE] > 0
  {
    m.(count := m.count[p - LOW_PAGE := m.count[p - LOW_PAGE] - 1], holds := m.holds[p - LOW_PAGE := 0])
  }

  lemma ReleaseOk(m: Vm, p: nat)
    requires Inv(m) && IsHeld(m, p)
    ensures m.count[p - LOW_PAGE] == 1
    ensures Inv(Release(m, p)) && SameViews(m, Release(m, p)) && IsFree(Release(m, p), p)
  {
    HeldUnused(m, p);
    assert |Refs(m.pte, PageKey(p))| == 0 && |Tables(m.dir, p)| == 0;
    var n := Release(m, p);
    assert forall v: nat | v < VM_SIZE :: EntryOk(m, v) ==> EntryOk(n, v);
    assert forall v: nat | v < VM_SIZE :: CleanAt(m, v) ==> CleanAt(n, v);
  }

  /** The kernel fills a page it holds. */
  function Fill(m: Vm, p: nat, x: Page): Vm
    requires IsHeld(m, p)
  {
    m.(frames := m.frames[p := x])
  }

  lemma FillZero(m: Vm, p: nat)
    requires IsHeld(m, p) && m.frames[p] == ZeroPage()
    ensures Fill(m, p, ZeroPage()) == m
  {
    assert m.frames[p := ZeroPage()] == m.frames;
  }

  lemma FillOk(m: Vm, p: nat, x: Page)
    requires Inv(m) && IsHeld(m, p)
    ensures Inv(Fill(m, p, x)) && SameViews(m, Fill(m, p, x))
  {
    HeldUnused(m, p);
    var n := Fill(m, p, x);
    assert forall v: nat | v < VM_SIZE :: EntryOk(m, v) ==> EntryOk(n, v);
    forall v: nat | v < VM_SIZE ensures CleanAt(n, v) && View(m, v) == View(n, v) {
      assert CleanAt(m, v) && EntryOk(m, v) && KeyOf(m.pte[v]) != PageKey(p);
    }
  }

  // ---------------------------------------------------------------- page tables

  /** A held, zeroed page becomes the page table of directory slot d. */
  function SetTable(m: Vm, d: nat, p: nat): Vm
    requires IsHeld(m, p) && TASK_DIRS <= d < TABLE_SIZE && m.dir[d].None?
  {
    m.(dir := m.dir[d := Some(p)], holds := m.holds[p - LOW_PAGE := 0])
  }

  lemma SetTableOk(m: Vm, d: nat, p: nat)
    requires Inv(m) && IsHeld(m, p) && TASK_DIRS <= d < TABLE_SIZE && m.dir[d].None?
    ensures Inv(SetTable(m, d, p)) && SameViews(m, SetTable(m, d, p))
  {
    HeldUnused(m, p);
    TablesUpdateAll(m.dir, d, Some(p));
    var n := SetTable(m, d, p);
    assert forall v: nat | v < VM_SIZE :: EntryOk(m, v) ==> EntryOk(n, v);
    assert forall v: nat | v < VM_SIZE :: CleanAt(m, v) ==> CleanAt(n, v);
  }

  ghost predicate TableEmpty(m: Vm, d: nat)
    requires d < TABLE_SIZE
  {
    forall v: nat | d * 1024 <= v < d * 1024 + 1024 :: m.pte[v] == Absent
  }

  /** An empty page table is freed. */
  function DropTable(m: Vm, d: nat): Vm
    requires d < TABLE_SIZE && m.dir[d].Some? && LOW_PAGE <= m.dir[d].value < |m.frames|
    requires m.count[m.dir[d].value - LOW_PAGE] > 0
  {
    var i := m.dir[d].value - LOW_PAGE;
    m.(dir := m.dir[d := None], count := m.count[i := m.count[i] - 1])
  }

  lemma TableCount(m: Vm, d: nat)
    requires Inv(m) && d < TABLE_SIZE && m.dir[d].Some?
    ensures LOW_PAGE <= m.dir[d].value < |m.frames|
    ensures m.count[m.dir[d].value - LOW_PAGE] == 1
    ensures m.holds[m.dir[d].value - LOW_PAGE] == 0
    ensures forall c: nat | c < TABLE_SIZE && c != d :: m.dir[c] != m.dir[d]
    ensures forall v: nat | v < VM_SIZE :: KeyOf(m.pte[v]) != PageKey(m.dir[d].value)
  {
    var p := m.dir[d].value;
    TablesOf(m.dir, d, p);
    assert |Tables(m.dir, p)| == 1;
    assert |Refs(m.pte, PageKey(p))| == 0;
    NoRefs(m.pte, PageKey(p));
  }

  lemma DropTableOk(m: Vm, d: nat)
    requires Inv(m) && d < TABLE_SIZE && m.dir[d].Some? && TableEmpty(m, d)
    ensures LOW_PAGE <= m.dir[d].value < |m.frames| && m.count[m.dir[d].value - LOW_PAGE] == 1
    ensures Inv(DropTable(m, d)) && SameViews(m, DropTable(m, d))
  {
    TableCount(m, d);
    TablesUpdateAll(m.dir, d, None);
    var n := DropTable(m, d);
    forall v: nat | v < VM_SIZE ensures EntryOk(n, v) {
      assert EntryOk(m, v);
      if v / 1024 == d { assert m.pte[v] == Absent; }
    }
    forall p: nat | LOW_PAGE <= p < LOW_PAGE + PAGING_PAGES
      ensures |Tables(n.dir, p)| == |Tables(m.dir, p)| - if m.dir[d] == Some(p) then 1 else 0
      ensures n.count[p - LOW_PAGE] == |Refs(n.pte, PageKey(p))| + |Tables(n.dir, p)| + n.holds[p - LOW_PAGE]
    {
    }
    assert OnePurpose(n) by {
      assert forall p: nat | LOW_PAGE <= p < LOW_PAGE + PAGING_PAGES :: |Tables(m.dir, p)| <= 1;
    }
    assert forall v: nat | v < VM_SIZE :: CleanAt(m, v) ==> CleanAt(n, v);
  }

  // ---------------------------------------------------------------- entries

  ghost predicate Mappable(m: Vm, v: nat) {
    v < VM_SIZE && m.dir[v / 1024].Some? && m.pte[v] == Absent
  }

  /** put_page, put_dirty_page: a held page becomes a task's. */
  function MapHeld(m: Vm, v: nat, p: nat, dirty: bool): Vm
    requires IsHeld(m, p) && Mappable(m, v)
  {
    m.(pte := m.pte[v := Present(p, true, dirty)], holds := m.holds[p - LOW_PAGE := 0])
  }

  lemma MapHeldOk(m: Vm, v: nat, p: nat, dirty: bool)
    requires Inv(m) && IsHeld(m, p) && Mappable(m, v)
    ensures InvBut(MapHeld(m, v, p, dirty), v)
    ensures dirty || m.frames[p] == Backing(m, v) ==> Inv(MapHeld(m, v, p, dirty))
    ensures forall w: nat | w < VM_SIZE ::
      View(MapHeld(m, v, p, dirty), w) == if w == v then m.frames[p] else View(m, w)
  {
    HeldUnused(m, p);
    var e := Present(p, true, dirty);
    RefsUpdate(m.pte, v, e, PageKey(p));
    var n := MapHeld(m, v, p, dirty);
    CountsUpdate(m, n, v, e);
    SlotsUpdate(m, n, v, e);
    OffsetUpdate(m, n, v, e);
    SharedUpdate(m, n, v, e);
    forall w: nat | w < VM_SIZE
      ensures EntryOk(n, w) && (w != v || dirty || m.frames[p] == Backing(m, v) ==> CleanAt(n, w))
    {
      assert EntryOk(m, w) && CleanAt(m, w);
    }
  }

  /** free_page on the page of entry v, and the entry cleared. */
  function Unmap(m: Vm, v: nat): Vm
    requires v < VM_SIZE && m.pte[v].Present?
    requires LOW_PAGE <= m.pte[v].page ==> m.pte[v].page < |m.frames| && m.count[m.pte[v].page - LOW_PAGE] > 0
  {
    var p := m.pte[v].page;
    m.(pte := m.pte[v := Absent],
       count := if p < LOW_PAGE then m.count else m.count[p - LOW_PAGE := m.count[p - LOW_PAGE] - 1])
  }

  lemma UnmapOk(m: Vm, v: nat)
    requires Inv(m) && v < VM_SIZE && m.pte[v].Present?
    ensures LOW_PAGE <= m.pte[v].page ==> m.pte[v].page < |m.frames| && m.count[m.pte[v].page - LOW_PAGE] > 0
    ensures Inv(Unmap(m, v))
    ensures forall w: nat | w < VM_SIZE ::
      View(Unmap(m, v), w) == if w == v then Backing(m, v) else View(m, w)
  {
    var p := m.pte[v].page;
    if p >= LOW_PAGE { MappedCount(m, v); }
    var n := Unmap(m, v);
    forall w: nat | w < VM_SIZE ensures EntryOk(n, w) && CleanAt(n, w) { assert EntryOk(m, w) && CleanAt(m, w); }
    CountsUpdate(m, n, v, Absent);
    SlotsUpdate(m, n, v, Absent);
    OffsetUpdate(m, n, v, Absent);
    ShrinkShared(m, n, v);
  }

  /** Removing or write-protecting entry v leaves the sharing rule in place. */
  lemma ShrinkShared(m: Vm, n: Vm, v: nat)
    requires EntriesOk(m) && SharedReadOnly(m) && v < VM_SIZE
    requires !n.pte[v].Present? || !n.pte[v].rw
    requires n.pte == m.pte[v := n.pte[v]]
    requires KeyOf(n.pte[v]) == KeyOf(m.pte[v]) || !n.pte[v].Present?
    ensures SharedReadOnly(n)
  {
    RefsUpdateAll(m.pte, v, n.pte[v]);
    forall w: nat | w < VM_SIZE && n.pte[w].Present? && n.pte[w].rw
      ensures |Refs(n.pte, KeyOf(n.pte[w]))| == 1
    {
      RefsOf(m.pte, w);
    }
  }

  /** swap_free on the slot of entry v, and the entry cleared. */
  function FreeSlot(m: Vm, v: nat): Vm
    requires v < VM_SIZE && m.pte[v].Swapped? && m.pte[v].slot < SWAP_BITS
  {
    m.(pte := m.pte[v := Absent], slots := m.slots[m.pte[v].slot := true])
  }

  lemma SwappedSlot(m: Vm, v: nat)
    requires Inv(m) && v < VM_SIZE && m.pte[v].Swapped?
    ensures 0 < m.pte[v].slot < SWAP_BITS && !m.slots[m.pte[v].slot] && m.pte[v].slot !in m.reserved
    ensures forall w: nat | w < VM_SIZE && w != v :: KeyOf(m.pte[w]) != KeyOf(m.pte[v])
  {
    assert EntryOk(m, v);
    RefsOf(m.pte, v);
  }

  lemma FreeSlotOk(m: Vm, v: nat)
    requires Inv(m) && v < VM_SIZE && m.pte[v].Swapped?
    ensures m.pte[v].slot < SWAP_BITS && Inv(FreeSlot(m, v))
    ensures forall w: nat | w < VM_SIZE ::
      View(FreeSlot(m, v), w) == if w == v then Backing(m, v) else View(m, w)
  {
    SwappedSlot(m, v);
    RefsUpdateAll(m.pte, v, Absent);
    var n := FreeSlot(m, v);
    forall w: nat | w < VM_SIZE ensures EntryOk(n, w) && CleanAt(n, w) { assert EntryOk(m, w) && CleanAt(m, w); }
    OffsetUpdate(m, n, v, n.pte[v]);
    ShrinkShared(m, n, v);
  }

  // ---------------------------------------------------------------- swapping

  ghost predicate Evictable(m: Vm, v: nat, s: nat) {
    && v < VM_SIZE && m.pte[v].Present? && m.pte[v].dirty
    && LOW_PAGE <= m.pte[v].page < |m.frames| && m.count[m.pte[v].page - LOW_PAGE] == 1
    && 0 < s < SWAP_BITS && m.slots[s]
  }

  /** try_to_swap_out on a dirty page: it moves to slot s. */
  function SwapOutTo(m: Vm, v: nat, s: nat): Vm
    requires Evictable(m, v, s)
  {
    var p := m.pte[v].page;
    m.(pte := m.pte[v := Swapped(s)], slots := m.slots[s := false], disk := m.disk[s := m.frames[p]],
       count := m.count[p - LOW_PAGE := 0])
  }

  /** A free slot gets its first holder. */
  lemma SlotTaken(m: Vm, n: Vm, v: nat, s: nat)
    requires SlotsOk(m) && v < VM_SIZE && s < SWAP_BITS && m.slots[s] && !m.pte[v].Swapped?
    requires n.pte == m.pte[v := Swapped(s)] && n.slots == m.slots[s := false] && n.reserved == m.reserved
    ensures SlotsOk(n)
  {
    forall r: nat | r < SWAP_BITS
      ensures |Refs(n.pte, SlotKey(r))| == if n.slots[r] || r in n.reserved then 0 else 1
    {
      RefsUpdate(m.pte, v, Swapped(s), SlotKey(r));
    }
  }

  lemma SwapOutToOk(m: Vm, v: nat, s: nat)
    requires Inv(m) && Evictable(m, v, s)
    ensures Inv(SwapOutTo(m, v, s)) && SameViews(m, SwapOutTo(m, v, s))
  {
    MappedCount(m, v);
    NoRefs(m.pte, SlotKey(s));
    var e := Swapped(s);
    RefsUpdate(m.pte, v, e, SlotKey(s));
    var n := SwapOutTo(m, v, s);
    CountsUpdate(m, n, v, e);
    SlotTaken(m, n, v, s);
    forall w: nat | w < VM_SIZE ensures EntryOk(n, w) && CleanAt(n, w) {
      assert EntryOk(m, w) && CleanAt(m, w) && KeyOf(m.pte[w]) != SlotKey(s);
    }
    OffsetUpdate(m, n, v, n.pte[v]);
    ShrinkShared(m, n, v);
    forall w: nat | w < VM_SIZE ensures View(m, w) == View(n, w) {
      assert EntryOk(m, w) && KeyOf(m.pte[w]) != SlotKey(s);
    }
  }

  /** try_to_swap_out on a clean page: it is just forgotten. */
  lemma DropCleanOk(m: Vm, v: nat)
    requires Inv(m) && v < VM_SIZE && m.pte[v].Present? && !m.pte[v].dirty && m.pte[v].page >= LOW_PAGE
    ensures m.pte[v].page < |m.frames| && m.count[m.pte[v].page - LOW_PAGE] > 0
    ensures Inv(Unmap(m, v)) && SameViews(m, Unmap(m, v))
  {
    UnmapOk(m, v);
    assert CleanAt(m, v);
  }

  /** swap_in: the page of entry v comes back into held page p, and its slot is free again. */
  function SwapInTo(m: Vm, v: nat, p: nat): Vm
    requires IsHeld(m, p) && v < VM_SIZE && m.dir[v / 1024].Some? && m.pte[v].Swapped? && m.pte[v].slot < SWAP_BITS
  {
    MapHeld(Fill(FreeSlot(m, v), p, m.disk[m.pte[v].slot]), v, p, true)
  }

  lemma SwapInToOk(m: Vm, v: nat, p: nat)
    requires Inv(m) && IsHeld(m, p) && v < VM_SIZE && m.pte[v].Swapped?
    ensures m.dir[v / 1024].Some? && m.pte[v].slot < SWAP_BITS
    ensures Inv(SwapInTo(m, v, p)) && SameViews(m, SwapInTo(m, v, p))
  {
    assert EntryOk(m, v);
    FreeSlotOk(m, v);
    var f := FreeSlot(m, v);
    FillOk(f, p, m.disk[m.pte[v].slot]);
    MapHeldOk(Fill(f, p, m.disk[m.pte[v].slot]), v, p, true);
  }

  // ---------------------------------------------------------------- sharing

  ghost predicate Shareable(m: Vm, v: nat, w: nat) {
    && v < VM_SIZE && Mappable(m, w) && v % TASK_PAGES == w % TASK_PAGES
    && m.pte[v].Present? && m.pte[v].page < |m.frames|
  }

  /** copy_page_tables and try_to_share on a present entry: w names the page of v, both read-only.
      Below 1 MB nothing is counted and entry v is left alone. */
  function Share(m: Vm, v: nat, w: nat): Vm
    requires Shareable(m, v, w)
    requires m.pte[v].page >= LOW_PAGE ==> m.count[m.pte[v].page - LOW_PAGE] < 255
  {
    var p := m.pte[v].page;
    var e := m.pte[v].(rw := false);
    if p < LOW_PAGE then m.(pte := m.pte[w := e])
    else AddUser(m.(pte := m.pte[v := e]), v, w)
  }

  /** Entry w is made equal to entry v, and the page counted once more. */
  function AddUser(m: Vm, v: nat, w: nat): Vm
    requires Shareable(m, v, w) && m.pte[v].page >= LOW_PAGE && m.count[m.pte[v].page - LOW_PAGE] < 255
  {
    var i := m.pte[v].page - LOW_PAGE;
    m.(pte := m.pte[w := m.pte[v]], count := m.count[i := m.count[i] + 1])
  }

  lemma ShareBound(m: Vm, v: nat, w: nat)
    requires Inv(m) && Shareable(m, v, w)
    requires m.pte[v].page >= LOW_PAGE
    ensures m.count[m.pte[v].page - LOW_PAGE] < 255
  {
    MappedCount(m, v);
    UsersBound(m, m.pte[v].page);
  }

  lemma ProtectOk(m: Vm, v: nat)
    requires Inv(m) && v < VM_SIZE && m.pte[v].Present?
    ensures var n := m.(pte := m.pte[v := m.pte[v].(rw := false)]); Inv(n) && SameViews(m, n)
  {
    var e := m.pte[v].(rw := false);
    var n := m.(pte := m.pte[v := e]);
    if e.page >= LOW_PAGE { MappedCount(m, v); }
    CountsUpdate(m, n, v, e);
    SlotsUpdate(m, n, v, e);
    OffsetUpdate(m, n, v, e);
    forall u: nat | u < VM_SIZE ensures EntryOk(n, u) && CleanAt(n, u) { assert EntryOk(m, u) && CleanAt(m, u); }
    ShrinkShared(m, n, v);
  }

  lemma ShareOk(m: Vm, v: nat, w: nat)
    requires Inv(m) && Shareable(m, v, w)
    requires !m.pte[v].dirty && m.pte[v].page >= LOW_PAGE ==> Backing(m, v) == Backing(m, w)
    ensures m.pte[v].page >= LOW_PAGE ==> m.count[m.pte[v].page - LOW_PAGE] < 255
    ensures Inv(Share(m, v, w))
    ensures forall u: nat | u < VM_SIZE :: View(Share(m, v, w), u) == View(m, if u == w then v else u)
  {
    hide InvBut;
    var e := m.pte[v];
    if e.page < LOW_PAGE {
      MapLowOk(m, w, e.page, e.dirty);
    } else {
      ShareBound(m, v, w);
      ProtectOk(m, v);
      AddUserOk(m.(pte := m.pte[v := e.(rw := false)]), v, w);
    }
  }

  /** Once one user of a page is read-only all are, and they agree on the logical page. */
  lemma SharersAgree(m: Vm, v: nat)
    requires SharedReadOnly(m) && OneOffset(m) && v < VM_SIZE
    requires m.pte[v].Present? && !m.pte[v].rw && m.pte[v].page >= LOW_PAGE
    ensures forall u: nat | u < VM_SIZE && KeyOf(m.pte[u]) == KeyOf(m.pte[v]) ::
      !m.pte[u].rw && u % TASK_PAGES == v % TASK_PAGES
  {
    forall u: nat | u < VM_SIZE && KeyOf(m.pte[u]) == KeyOf(m.pte[v]) ensures !m.pte[u].rw { RefsOf(m.pte, u); }
  }

  lemma AddUserOk(m: Vm, v: nat, w: nat)
    requires Inv(m) && Shareable(m, v, w) && !m.pte[v].rw && m.pte[v].page >= LOW_PAGE
    requires !m.pte[v].dirty ==> Backing(m, v) == Backing(m, w)
    requires m.count[m.pte[v].page - LOW_PAGE] < 255
    ensures Inv(AddUser(m, v, w))
    ensures forall u: nat | u < VM_SIZE :: View(AddUser(m, v, w), u) == View(m, if u == w then v else u)
  {
    var e := m.pte[v];
    MappedCount(m, v);
    var n := AddUser(m, v, w);
    assert EntryOk(m, v) && CleanAt(m, v);
    forall u: nat | u < VM_SIZE ensures EntryOk(n, u) && CleanAt(n, u) { assert EntryOk(m, u) && CleanAt(m, u); }
    SharersAgree(m, v);
    CountsUpdate(m, n, w, e);
    SlotsUpdate(m, n, w, e);
    OffsetUpdate(m, n, w, e);
    SharedUpdate(m, n, w, e);
  }

  /** Entry w takes over free slot s as it is. */
  function KeepSlot(m: Vm, w: nat, s: nat): Vm
    requires Mappable(m, w) && s < SWAP_BITS
  {
    m.(pte := m.pte[w := Swapped(s)], slots := m.slots[s := false])
  }

  lemma KeepSlotOk(m: Vm, w: nat, s: nat)
    requires Inv(m) && Mappable(m, w) && 0 < s < SWAP_BITS && m.slots[s]
    ensures Inv(KeepSlot(m, w, s))
    ensures forall u: nat | u < VM_SIZE :: View(KeepSlot(m, w, s), u) == if u == w then m.disk[s] else View(m, u)
  {
    RefsUpdateAll(m.pte, w, Swapped(s));
    var n := KeepSlot(m, w, s);
    forall u: nat | u < VM_SIZE ensures EntryOk(n, u) && CleanAt(n, u) { assert EntryOk(m, u) && CleanAt(m, u); }
    ShrinkShared(m, n, w);
    forall u: nat | u < VM_SIZE ensures View(n, u) == if u == w then m.disk[s] else View(m, u) { assert EntryOk(m, u); }
  }

  /** copy_page_tables on a swapped entry: the parent's page comes back, the child keeps the slot. */
  function GiveSlot(m: Vm, v: nat, w: nat, p: nat): Vm
    requires IsHeld(m, p) && Mappable(m, w) && v < VM_SIZE && m.dir[v / 1024].Some?
    requires m.pte[v].Swapped? && m.pte[v].slot < SWAP_BITS
  {
    KeepSlot(SwapInTo(m, v, p), w, m.pte[v].slot)
  }

  lemma GiveSlotOk(m: Vm, v: nat, w: nat, p: nat)
    requires Inv(m) && IsHeld(m, p) && Mappable(m, w) && v < VM_SIZE && m.pte[v].Swapped?
    ensures m.dir[v / 1024].Some? && m.pte[v].slot < SWAP_BITS && Inv(GiveSlot(m, v, w, p))
    ensures forall u: nat | u < VM_SIZE :: View(GiveSlot(m, v, w, p), u) == View(m, if u == w then v else u)
  {
    SwappedSlot(m, v);
    SwapInToOk(m, v, p);
    KeepSlotOk(SwapInTo(m, v, p), w, m.pte[v].slot);
  }

  /** The first fork: entry w gets a page below 1 MB. */
  function MapLow(m: Vm, w: nat, p: nat, dirty: bool): Vm
    requires Mappable(m, w)
  {
    m.(pte := m.pte[w := Present(p, false, dirty)])
  }

  lemma MapLowOk(m: Vm, w: nat, p: nat, dirty: bool)
    requires Inv(m) && Mappable(m, w) && p < LOW_PAGE
    ensures Inv(MapLow(m, w, p, dirty))
    ensures forall u: nat | u < VM_SIZE ::
      View(MapLow(m, w, p, dirty), u) == if u == w then m.frames[p] else View(m, u)
  {
    var n, e := MapLow(m, w, p, dirty), Present(p, false, dirty);
    CountsUpdate(m, n, w, e);
    SlotsUpdate(m, n, w, e);
    OffsetUpdate(m, n, w, e);
    RefsUpdateAll(m.pte, w, e);
    forall u: nat | u < VM_SIZE ensures EntryOk(n, u) && CleanAt(n, u) { assert EntryOk(m, u) && CleanAt(m, u); }
    forall u: nat | u < VM_SIZE && n.pte[u].Present? && n.pte[u].rw ensures |Refs(n.pte, KeyOf(n.pte[u]))| == 1 {
      assert u != w && EntryOk(m, u);
    }
  }

  // ---------------------------------------------------------------- writing

  ghost predicate CountOne(m: Vm, v: nat) {
    && v < VM_SIZE && m.pte[v].Present?
    && LOW_PAGE <= m.pte[v].page < |m.frames| && m.count[m.pte[v].page - LOW_PAGE] == 1
  }

  /** un_wp_page on a page with one user. */
  function Unprotect(m: Vm, v: nat): Vm
    requires CountOne(m, v)
  {
    m.(pte := m.pte[v := m.pte[v].(rw := true)])
  }

  lemma UnprotectOk(m: Vm, v: nat)
    requires Inv(m) && CountOne(m, v)
    ensures Inv(Unprotect(m, v)) && SameViews(m, Unprotect(m, v))
  {
    MappedCount(m, v);
    RefsUpdateAll(m.pte, v, m.pte[v].(rw := true));
    var n := Unprotect(m, v);
    forall w: nat | w < VM_SIZE ensures EntryOk(n, w) && CleanAt(n, w) { assert EntryOk(m, w) && CleanAt(m, w); }
    forall w: nat | w < VM_SIZE && n.pte[w].Present? && n.pte[w].rw ensures |Refs(n.pte, KeyOf(n.pte[w]))| == 1 {
      assert w != v ==> n.pte[w] == m.pte[w];
    }
  }

  ghost predicate Copyable(m: Vm, v: nat, p: nat) {
    && IsHeld(m, p) && v < VM_SIZE && m.pte[v].Present? && m.pte[v].page < |m.frames| && m.dir[v / 1024].Some?
    && (m.pte[v].page >= LOW_PAGE ==> m.count[m.pte[v].page - LOW_PAGE] > 0)
  }

  /** un_wp_page on a shared page: entry v gets a copy in held page p, writable and not marked dirty. */
  function CopyOnWrite(m: Vm, v: nat, p: nat): Vm
    requires Copyable(m, v, p)
  {
    MapHeld(Fill(Unmap(m, v), p, m.frames[m.pte[v].page]), v, p, false)
  }

  lemma CopyOnWriteIs(m: Vm, v: nat, p: nat)
    requires Copyable(m, v, p)
    ensures var q := m.pte[v].page;
      CopyOnWrite(m, v, p)
      == m.(count := if q < LOW_PAGE then m.count else m.count[q - LOW_PAGE := m.count[q - LOW_PAGE] - 1],
            frames := m.frames[p := m.frames[q]], pte := m.pte[v := Present(p, true, false)],
            holds := m.holds[p - LOW_PAGE := 0])
  {
    assert m.pte[v := Absent][v := Present(p, true, false)] == m.pte[v := Present(p, true, false)];
  }

  lemma CopyOnWriteOk(m: Vm, v: nat, p: nat)
    requires Inv(m) && Copyable(m, v, p)
    ensures InvBut(CopyOnWrite(m, v, p), v) && SameViews(m, CopyOnWrite(m, v, p))
    ensures Inv(CopyOnWrite(m, v, p)) <==> View(m, v) == Backing(m, v)
  {
    UnmapOk(m, v);
    FillOk(Unmap(m, v), p, m.frames[m.pte[v].page]);
    var f := Fill(Unmap(m, v), p, m.frames[m.pte[v].page]);
    MapHeldOk(f, v, p, false);
    assert CleanAt(CopyOnWrite(m, v, p), v) <==> View(m, v) == Backing(m, v);
  }

  lemma InvWeaken(m: Vm, v: nat)
    requires Inv(m)
    ensures InvBut(m, v)
  {
  }

  lemma WritableUnused(m: Vm, v: nat)
    requires InvBut(m, v) && Writable(m, v)
    ensures m.pte[v].page >= LOW_PAGE && m.dir[v / 1024].Some?
    ensures forall d: nat | d < TABLE_SIZE :: m.dir[d] != Some(m.pte[v].page)
  {
    assert EntryOk(m, v);
    MappedCount(m, v);
    NoTables(m.dir, m.pte[v].page);
  }

  ghost predicate Writable(m: Vm, v: nat) {
    v < VM_SIZE && m.pte[v].Present? && m.pte[v].rw && m.pte[v].page < |m.frames|
  }

  /** The store itself: the processor writes the byte and sets the dirty bit. */
  function StoreByte(m: Vm, v: nat, o: nat, b: byte): Vm
    requires Writable(m, v) && o < PAGE_SIZE
  {
    var p := m.pte[v].page;
    m.(frames := m.frames[p := m.frames[p][o := b]], pte := m.pte[v := m.pte[v].(dirty := true)])
  }

  lemma StoreByteOk(m: Vm, v: nat, o: nat, b: byte)
    requires InvBut(m, v) && Writable(m, v) && o < PAGE_SIZE
    ensures Inv(StoreByte(m, v, o, b))
    ensures forall w: nat | w < VM_SIZE ::
      View(StoreByte(m, v, o, b), w) == if w == v then View(m, v)[o := b] else View(m, w)
  {
    assert EntryOk(m, v);
    MappedCount(m, v);
    SoleUser(m, v);
    RefsUpdateAll(m.pte, v, m.pte[v].(dirty := true));
    var n := StoreByte(m, v, o, b);
    forall w: nat | w < VM_SIZE
      ensures EntryOk(n, w) && CleanAt(n, w)
    {
      assert EntryOk(m, w) && (w != v ==> CleanAt(m, w) && KeyOf(m.pte[w]) != KeyOf(m.pte[v]));
    }
    forall w: nat | w < VM_SIZE ensures View(n, w) == if w == v then View(m, v)[o := b] else View(m, w) {
      assert EntryOk(m, w) && (w != v ==> KeyOf(m.pte[w]) != KeyOf(m.pte[v]));
    }
  }

  // ---------------------------------------------------------------- programs

  ghost predicate RangeEmpty(m: Vm, lo: nat, hi: nat)
    requires hi <= VM_SIZE
  {
    forall v: nat | lo <= v < hi :: m.pte[v] == Absent
  }

  /** exec and fork: task t, with no pages, now runs program g. */
  function SetProgram(m: Vm, t: nat, g: Program): Vm
    requires t < NR_TASKS
  {
    m.(programs := m.programs[t := g])
  }

  lemma SetProgramOk(m: Vm, t: nat, g: Program)
    requires Inv(m) && t < NR_TASKS && RangeEmpty(m, t * TASK_PAGES, (t + 1) * TASK_PAGES)
    ensures Inv(SetProgram(m, t, g))
    ensures forall v: nat | v < VM_SIZE && v / TASK_PAGES != t :: View(SetProgram(m, t, g), v) == View(m, v)
    ensures forall v: nat | v < VM_SIZE && v / TASK_PAGES == t ::
      View(SetProgram(m, t, g), v) == Content(g, v % TASK_PAGES)
  {
    var n := SetProgram(m, t, g);
    forall v: nat | v < VM_SIZE ensures EntryOk(n, v) && CleanAt(n, v) {
      assert EntryOk(m, v) && CleanAt(m, v);
      if v / TASK_PAGES == t { assert m.pte[v] == Absent; }
    }
  }
}
