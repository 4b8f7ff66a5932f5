// The order in which swap_out tries pages, which of them it misses, and what get_free_page makes of it.
// The cursor is a directory slot d and an entry e of its table, -1 for none.

module VmSweep {
  import opened Kernel
  import opened VmState
  import opened VmSteps
  import opened VmRelations
  import opened VmRoom

  /** The pages of all tasks but task 0. */
  const ROUND: nat := VM_SIZE - TASK_PAGES

  ghost predicate IsCursor(d: nat, e: int) {
    TASK_DIRS <= d < TABLE_SIZE && -1 <= e < TABLE_SIZE
  }

  function PrevDir(d: nat): nat {
    if d > TASK_DIRS then d - 1 else TABLE_SIZE - 1
  }

  /** How far behind slot d slot g comes in the round. */
  function Ahead(d: nat, g: nat): int {
    if g >= d then g - d else g - d + (TABLE_SIZE - TASK_DIRS)
  }

  /** Slot f has the first table from slot d on. */
  ghost predicate IsFirst(dir: seq<Option<nat>>, d: nat, f: nat)
    requires |dir| == TABLE_SIZE
  {
    && TASK_DIRS <= f < TABLE_SIZE && dir[f].Some?
    && forall g: nat | TASK_DIRS <= g < TABLE_SIZE && Ahead(d, g) < Ahead(d, f) :: dir[g].None?
  }

  /** What swap_out does not try. If the table of the cursor is gone, the next table takes its place but not
      from its beginning. Otherwise the count runs out before the cursor's own entry if that is the first of
      its table and the slot before has none. */
  ghost predicate MissedAt(dir: seq<Option<nat>>, d: nat, e: int, v: nat)
    requires |dir| == TABLE_SIZE && IsCursor(d, e) && v < VM_SIZE
  {
    if dir[d].Some? then v == d * 1024 && e == 0 && dir[PrevDir(d)].None?
    else IsFirst(dir, d, v / 1024) && v % 1024 <= e
  }

  ghost function Missed(dir: seq<Option<nat>>, d: nat, e: int): set<nat>
    requires |dir| == TABLE_SIZE && IsCursor(d, e)
  {
    set v: nat | TASK_PAGES <= v < VM_SIZE && MissedAt(dir, d, e, v)
  }

  /** Entry v is tried and can be swapped out. */
  ghost predicate Candidate(m: Vm, d: nat, e: int, v: nat)
    requires IsCursor(d, e)
  {
    TASK_PAGES <= v < VM_SIZE && Swappable(m, v) && v !in Missed(m.dir, d, e)
  }

  ghost predicate SomeCandidate(m: Vm, d: nat, e: int)
    requires IsCursor(d, e)
  {
    exists v: nat :: Candidate(m, d, e, v)
  }

  /** Where a round begins. */
  function From(dir: seq<Option<nat>>, d: nat, e: int): nat
    requires |dir| == TABLE_SIZE && IsCursor(d, e)
  {
    if dir[d].Some? then d * 1024 + e + 1 else d * 1024
  }

  /** The place of entry v in a round from `from` on. */
  function Rank(from: nat, v: nat): int {
    if v >= from then v - from else v - from + ROUND
  }

  /** swap_out takes the first candidate. */
  ghost predicate Takes(m: Vm, d: nat, e: int, v: nat)
    requires IsCursor(d, e)
  {
    && Candidate(m, d, e, v)
    && forall u: nat | Candidate(m, d, e, u) :: Rank(From(m.dir, d, e), v) <= Rank(From(m.dir, d, e), u)
  }

  lemma TakesUnique(m: Vm, d: nat, e: int, v: nat, u: nat)
    requires IsCursor(d, e) && Takes(m, d, e, v) && Takes(m, d, e, u)
    ensures v == u
  {
  }

  // ---------------------------------------------------------------- the progress of a scan

  /** No candidate comes among the first n places. */
  ghost predicate Scanned(m: Vm, d: nat, e: int, n: int)
    requires IsCursor(d, e)
  {
    forall v: nat | Candidate(m, d, e, v) :: Rank(From(m.dir, d, e), v) >= n
  }

  /** v is at place n, or just past the end when the round is about to wrap. */
  predicate AtPlace(from: nat, v: nat, n: int) {
    v - from == n || v - from + ROUND == n
  }

  /** The skipped beginning of the first table is over. */
  ghost predicate Past(dir: seq<Option<nat>>, d: nat, e: int, n: int)
    requires |dir| == TABLE_SIZE && IsCursor(d, e)
  {
    dir[d].None? ==> forall f: nat | IsFirst(dir, d, f) :: n > 1024 * Ahead(d, f) + e
  }

  lemma PastOn(dir: seq<Option<nat>>, d: nat, e: int, n: int, more: nat)
    requires |dir| == TABLE_SIZE && IsCursor(d, e) && Past(dir, d, e, n)
    ensures Past(dir, d, e, n + more)
  {
  }

  /** Where the count of swap_out runs out. */
  function Limit(dir: seq<Option<nat>>, d: nat, e: int): int
    requires |dir| == TABLE_SIZE && IsCursor(d, e)
  {
    if dir[d].Some? then ROUND else ROUND + e + 1
  }

  lemma AheadRank(d: nat, v: nat)
    requires TASK_DIRS <= d < TABLE_SIZE && TASK_PAGES <= v < VM_SIZE
    ensures Ahead(d, v / 1024) == Rank(d * 1024, v) / 1024
  {
  }

  /** The first `k` slots from d on have no table; then comes that of slot f. */
  lemma ScanStarts(m: Vm, d: nat, e: int, f: nat, k: nat)
    requires Inv(m) && IsCursor(d, e) && TASK_DIRS <= f < TABLE_SIZE && m.dir[f].Some? && Ahead(d, f) == k
    requires forall g: nat | TASK_DIRS <= g < TABLE_SIZE && Ahead(d, g) < k :: m.dir[g].None?
    ensures var n := if k == 0 then 0 else 1024 * k + e + 1;
      && Scanned(m, d, e, n) && AtPlace(From(m.dir, d, e), f * 1024 + e + 1, n)
      && Past(m.dir, d, e, n) && Limit(m.dir, d, e) - n == ROUND - 1024 * k
  {
    forall v: nat | Candidate(m, d, e, v)
      ensures Rank(From(m.dir, d, e), v) >= if k == 0 then 0 else 1024 * k + e + 1
    {
      assert EntryOk(m, v);
      if k > 0 {
        assert m.dir[d].None? by { assert Ahead(d, d) == 0; }
        AheadRank(d, v);
        if v / 1024 == f { assert IsFirst(m.dir, d, f); }
      }
    }
    if k > 0 { assert m.dir[d].None? by { assert Ahead(d, d) == 0; } }
  }

  lemma NothingMapped(m: Vm, d: nat, e: int)
    requires Inv(m) && IsCursor(d, e) && forall g: nat | TASK_DIRS <= g < TABLE_SIZE :: m.dir[g].None?
    ensures !SomeCandidate(m, d, e)
  {
    forall v: nat | TASK_PAGES <= v < VM_SIZE ensures !Candidate(m, d, e, v) { assert EntryOk(m, v); }
  }

  lemma ScannedTable(m: Vm, d: nat, e: int, n: int, g: nat)
    requires Inv(m) && IsCursor(d, e) && 0 <= n && Scanned(m, d, e, n)
    requires TASK_DIRS <= g < TABLE_SIZE && m.dir[g].None? && AtPlace(From(m.dir, d, e), g * 1024, n)
    ensures Scanned(m, d, e, n + 1024)
  {
    forall v: nat | Candidate(m, d, e, v) ensures Rank(From(m.dir, d, e), v) >= n + 1024 {
      assert EntryOk(m, v);
    }
  }

  lemma ScannedOne(m: Vm, d: nat, e: int, n: int, v: nat)
    requires IsCursor(d, e) && Scanned(m, d, e, n) && TASK_PAGES <= v < VM_SIZE
    requires AtPlace(From(m.dir, d, e), v, n) && !Swappable(m, v)
    ensures Scanned(m, d, e, n + 1)
  {
  }

  /** The count has run out; if one place short, at the end of a slot without table. */
  lemma ScanEnds(m: Vm, d: nat, e: int, n: int, g: nat)
    requires Inv(m) && IsCursor(d, e) && Scanned(m, d, e, n) && n >= Limit(m.dir, d, e) - 1
    requires n == Limit(m.dir, d, e) - 1 ==>
      TASK_DIRS <= g < TABLE_SIZE && m.dir[g].None? && AtPlace(From(m.dir, d, e), (g + 1) * 1024, n)
    ensures !SomeCandidate(m, d, e)
  {
    forall v: nat | TASK_PAGES <= v < VM_SIZE && v !in Missed(m.dir, d, e) ensures !Candidate(m, d, e, v) {
      assert !MissedAt(m.dir, d, e, v);
    }
  }

  /** An entry tried before the count has run out is what swap_out takes if it can be swapped: no candidate
      came before it. After a slot without table one more must be left on the count. */
  lemma ScanTakes(m: Vm, d: nat, e: int, n: int, v: nat)
    requires Inv(m) && IsCursor(d, e) && 0 <= n < Limit(m.dir, d, e) && Scanned(m, d, e, n)
    requires TASK_PAGES <= v < VM_SIZE && AtPlace(From(m.dir, d, e), v, n) && Swappable(m, v)
    requires v % 1024 == 0 && m.dir[PrevDir(v / 1024)].None? ==> n + 1 < Limit(m.dir, d, e)
    requires Past(m.dir, d, e, n)
    ensures Takes(m, d, e, v) && SomeCandidate(m, d, e)
  {
    assert EntryOk(m, v);
    AheadRank(d, v);
    assert !MissedAt(m.dir, d, e, v);
  }

  // ---------------------------------------------------------------- get_free_page

  /** try_to_swap_out on an entry that can be swapped. */
  ghost function Evict(m: Vm, v: nat): Vm
    requires Inv(m) && v < VM_SIZE && Swappable(m, v)
  {
    MappedCount(m, v);
    if m.pte[v].dirty then
      SomeSlot(m);
      var s: nat :| LowestSlot(m, s);
      SwapOutTo(m, v, s)
    else
      Unmap(m, v)
  }

  lemma SomeSlot(m: Vm)
    requires exists s: nat :: 0 < s < SWAP_BITS && m.slots[s]
    ensures exists s: nat :: LowestSlot(m, s)
  {
    var s: nat :| 0 < s < SWAP_BITS && m.slots[s];
    LowestBelow(m, s);
  }

  lemma {:induction false} LowestBelow(m: Vm, s: nat)
    requires 0 < s < SWAP_BITS && m.slots[s]
    ensures exists r: nat :: LowestSlot(m, r)
  {
    if r: nat :| 0 < r < s && m.slots[r] {
      LowestBelow(m, r);
    } else {
      assert LowestSlot(m, s);
    }
  }

  lemma EvictIs(m: Vm, v: nat, n: Vm)
    requires Inv(m) && v < VM_SIZE && Swappable(m, v) && SwappedOut(m, v, n)
    ensures n == Evict(m, v)
  {
  }

  /** The state that get_free_page leaves, the page it returns or 0, and then the cursor. */
  datatype Got = Got(m: Vm, page: nat, d: nat, e: int)

  /** What get_free_page does: as long as no page is free, the first candidate is evicted, and the next round
      begins there. */
  ghost function GetPage(m: Vm, d: nat, e: int): (r: Got)
    requires Inv(m) && IsCursor(d, e)
    ensures IsCursor(r.d, r.e)
    decreases Resident(m)
  {
    if SomeFree(m) then
      SomeHighest(m);
      var p: nat :| HighestFree(m, p);
      Got(Alloc(m, p), p, d, e)
    else if exists v: nat :: Takes(m, d, e, v) then
      var v: nat :| Takes(m, d, e, v);
      EvictOk(m, v);
      GetPage(Evict(m, v), v / 1024, v % 1024)
    else
      Got(m, 0, d, e)
  }

  lemma SomeHighest(m: Vm)
    requires SomeFree(m)
    ensures exists p: nat :: HighestFree(m, p)
  {
    var p: nat :| IsFree(m, p);
    HighestAbove(m, p);
  }

  lemma {:induction false} HighestAbove(m: Vm, p: nat)
    requires IsFree(m, p)
    ensures exists q: nat :: HighestFree(m, q)
    decreases |m.frames| - p
  {
    if q: nat :| p < q < |m.frames| && IsFree(m, q) {
      HighestAbove(m, q);
    } else {
      assert HighestFree(m, p);
    }
  }

  lemma EvictOk(m: Vm, v: nat)
    requires Inv(m) && v < VM_SIZE && Swappable(m, v)
    ensures Evicted(m, Evict(m, v)) && Resident(Evict(m, v)) < Resident(m) && Inv(Evict(m, v))
    ensures !Evict(m, v).pte[v].Present?
  {
    MappedCount(m, v);
    SwappedOutOk(m, v, Evict(m, v));
  }

  lemma TakesSwappable(m: Vm, d: nat, e: int, v: nat)
    requires IsCursor(d, e) && Takes(m, d, e, v)
    ensures TASK_PAGES <= v < VM_SIZE && Swappable(m, v) && IsCursor(v / 1024, v % 1024)
  {
  }

  /** One round of the loop. */
  lemma GetPageStep(m: Vm, d: nat, e: int, v: nat)
    requires Inv(m) && IsCursor(d, e) && !SomeFree(m) && Takes(m, d, e, v)
    ensures Swappable(m, v) && Inv(Evict(m, v)) && GetPage(m, d, e) == GetPage(Evict(m, v), v / 1024, v % 1024)
  {
    EvictOk(m, v);
    forall u: nat | Takes(m, d, e, u) ensures u == v { TakesUnique(m, d, e, u, v); }
  }

  lemma GetPageFree(m: Vm, d: nat, e: int, p: nat)
    requires Inv(m) && IsCursor(d, e) && HighestFree(m, p)
    ensures GetPage(m, d, e) == Got(Alloc(m, p), p, d, e)
  {
  }

  lemma GetPageNone(m: Vm, d: nat, e: int)
    requires Inv(m) && IsCursor(d, e) && !SomeFree(m) && !SomeCandidate(m, d, e)
    ensures GetPage(m, d, e) == Got(m, 0, d, e)
  {
  }

  lemma {:induction false} GotHeld(m: Vm, d: nat, e: int)
    requires Inv(m) && IsCursor(d, e)
    ensures var r := GetPage(m, d, e); r.page != 0 ==> Inv(r.m) && IsHeld(r.m, r.page)
    decreases Resident(m)
  {
    if SomeFree(m) {
      SomeHighest(m);
      var p: nat :| HighestFree(m, p);
      AllocOk(m, p);
      GetPageFree(m, d, e, p);
    } else if v: nat :| Takes(m, d, e, v) {
      GetPageStep(m, d, e, v);
      EvictOk(m, v);
      GotHeld(Evict(m, v), v / 1024, v % 1024);
    }
  }

  /** get_free_page returns 0, for a page with contents x at v or for the table it needs. */
  ghost predicate NoPageFor(m: Vm, d: nat, e: int, v: nat, x: Page)
    requires Inv(m) && IsCursor(d, e) && v < VM_SIZE
  {
    GotHeld(m, d, e);
    var r := GetPage(m, d, e);
    || r.page == 0
    || (m.dir[v / 1024].None? && (FillOk(r.m, r.page, x); GetPage(Fill(r.m, r.page, x), r.d, r.e).page == 0))
  }

  /** A fault on missing entry v of task t is served by a page of another task. */
  ghost predicate Shares(m: Vm, t: nat, v: nat, users: nat)
    requires t < NR_TASKS && v < VM_SIZE
  {
    m.pte[v] == Absent && SharesPage(m, t, v % TASK_PAGES, users)
  }

  lemma SwappedAlone(m: Vm, t: nat, v: nat, users: nat)
    requires t < NR_TASKS && v < VM_SIZE && m.pte[v] != Absent
    ensures !Shares(m, t, v, users)
  {
  }

  lemma SharesFile(m: Vm, t: nat, v: nat, users: nat)
    requires t < NR_TASKS && v < VM_SIZE && m.pte[v] == Absent
    ensures var f := FileAt(m.programs[t], v % TASK_PAGES);
      Shares(m, t, v, users) <==>
        f.Some? && users >= 2 && exists q: nat :: CanShareFrom(m, f.value, v % TASK_PAGES, t, q)
  {
  }

  /** do_no_page has brought in the page of entry v: one that others have too, or one of its own, which is dirty
      only if it comes from the swap device. */
  ghost predicate BroughtIn(m: Vm, n: Vm, t: nat, v: nat, users: nat)
    requires t < NR_TASKS && v < VM_SIZE
  {
    && n.pte[v].Present?
    && if Shares(m, t, v, users) then SharedAt(n, v) && TableSpent(m, n, v)
       else n.pte[v].rw && (n.pte[v].dirty <==> m.pte[v].Swapped?)
  }

  /** A fault on missing entry v of task t fails: get_free_page returns 0 on the way. */
  ghost predicate FaultFails(m: Vm, d: nat, e: int, t: nat, v: nat, users: nat)
    requires Inv(m) && IsCursor(d, e) && t < NR_TASKS && v < VM_SIZE
  {
    match m.pte[v]
    case Present(_, _, _) => false
    case Swapped(_) => GetPage(m, d, e).page == 0
    case Absent =>
      if Shares(m, t, v, users) then m.dir[v / 1024].None? && GetPage(m, d, e).page == 0
      else NoPageFor(m, d, e, v, Backing(m, v))
  }

  /** A fork of m has come to a point where get_free_page returns 0. */
  ghost predicate Starved(m: Vm, fd: nat, td: nat, size: nat) {
    exists k: Vm, next: nat, d: nat, e: int ::
      Copying(m, k, fd, td, size, next) && IsCursor(d, e) && GetPage(k, d, e).page == 0
  }

  lemma StarvedNow(m: Vm, k: Vm, fd: nat, td: nat, size: nat, next: nat, d: nat, e: int)
    requires Copying(m, k, fd, td, size, next) && IsCursor(d, e) && GetPage(k, d, e).page == 0
    ensures Starved(m, fd, td, size)
  {
  }

  /** get_free_page leaves entry v as it is. */
  ghost predicate Keeps(m: Vm, d: nat, e: int, v: nat)
    requires Inv(m) && IsCursor(d, e) && v < VM_SIZE
  {
    GetPage(m, d, e).m.pte[v] == m.pte[v]
  }

  /** Entries change only by losing their pages, and that is for good. */
  lemma {:induction false} GetPageEntries(m: Vm, d: nat, e: int, v: nat)
    requires Inv(m) && IsCursor(d, e) && v < VM_SIZE
    ensures var a := GetPage(m, d, e).m; a.pte[v] == m.pte[v] || (m.pte[v].Present? && !a.pte[v].Present?)
    ensures !SomeFree(m) && Takes(m, d, e, v) ==> !Keeps(m, d, e, v)
    ensures m.pte[v].Present? && !m.pte[v].dirty && !Keeps(m, d, e, v) ==> GetPage(m, d, e).m.pte[v] == Absent
    decreases Resident(m)
  {
    if !SomeFree(m) && exists u: nat :: Takes(m, d, e, u) {
      var u: nat :| Takes(m, d, e, u);
      GetPageStep(m, d, e, u);
      EvictOk(m, u);
      GetPageEntries(Evict(m, u), u / 1024, u % 1024, v);
      if Takes(m, d, e, v) { TakesUnique(m, d, e, u, v); }
    } else if SomeFree(m) {
      SomeHighest(m);
    }
  }

  lemma KeepsClean(m: Vm, d: nat, e: int, v: nat)
    requires Inv(m) && IsCursor(d, e) && v < VM_SIZE && m.pte[v].Present? && !m.pte[v].dirty
    ensures GetPage(m, d, e).m.pte[v] == if Keeps(m, d, e, v) then m.pte[v] else Absent
  {
    GetPageEntries(m, d, e, v);
  }

  /** A free page keeps all entries, and pages that cannot be swapped stay anyway. */
  lemma {:induction false} KeepsIf(m: Vm, d: nat, e: int, v: nat)
    requires Inv(m) && IsCursor(d, e) && v < VM_SIZE
    ensures SomeFree(m) || Pinned(m, v) ==> Keeps(m, d, e, v)
    decreases Resident(m)
  {
    hide InvBut, Swappable, Pinned, Evict, Takes, View;
    if SomeFree(m) {
      SomeHighest(m);
    } else if u: nat :| Takes(m, d, e, u) {
      TakesSwappable(m, d, e, u);
      GetPageStep(m, d, e, u);
      EvictOk(m, u);
      KeepsIf(Evict(m, u), u / 1024, u % 1024, v);
    }
  }

  /** No page is free, and the first page to be swapped has one user: then only this entry is lost, and its
      page is the one that get_free_page returns. */
  lemma KeepsOthers(m: Vm, d: nat, e: int, u: nat, v: nat)
    requires Inv(m) && IsCursor(d, e) && !SomeFree(m) && Takes(m, d, e, u) && CountOne(m, u) && v < VM_SIZE
    ensures Keeps(m, d, e, v) <==> v != u
    ensures GetPage(m, d, e).page == m.pte[u].page
  {
    GetPageStep(m, d, e, u);
    EvictOk(m, u);
    MappedCount(m, u);
    var n, p := Evict(m, u), m.pte[u].page;
    assert forall q: nat :: IsFree(n, q) ==> IsFree(m, q) || q == p;
    assert HighestFree(n, p);
    GetPageFree(n, u / 1024, u % 1024, p);
  }

  /** 0 means that the last round met no candidate. */
  lemma {:induction false} GetPageFails(m: Vm, d: nat, e: int)
    requires Inv(m) && IsCursor(d, e) && GetPage(m, d, e).page == 0
    ensures !SomeFree(GetPage(m, d, e).m)
    ensures exists d': nat, e': int :: IsCursor(d', e') && !SomeCandidate(GetPage(m, d, e).m, d', e')
    decreases Resident(m)
  {
    if SomeFree(m) {
      SomeHighest(m);
    } else if v: nat :| Takes(m, d, e, v) {
      GetPageStep(m, d, e, v);
      EvictOk(m, v);
      GetPageFails(Evict(m, v), v / 1024, v % 1024);
    } else {
      FirstCandidate(m, d, e);
    }
  }

  lemma FirstCandidate(m: Vm, d: nat, e: int)
    requires IsCursor(d, e)
    ensures SomeCandidate(m, d, e) ==> exists v: nat :: Takes(m, d, e, v)
  {
    if v: nat :| Candidate(m, d, e, v) { FirstBefore(m, d, e, v); }
  }

  lemma {:induction false} FirstBefore(m: Vm, d: nat, e: int, v: nat)
    requires IsCursor(d, e) && Candidate(m, d, e, v)
    ensures exists u: nat :: Takes(m, d, e, u)
    decreases Rank(From(m.dir, d, e), v)
  {
    var from := From(m.dir, d, e);
    if u: nat :| Candidate(m, d, e, u) && Rank(from, u) < Rank(from, v) {
      FirstBefore(m, d, e, u);
    } else {
      assert Takes(m, d, e, v);
    }
  }

  /** try_to_share on task q's page would not lose sight of it. */
  ghost predicate ShareKept(m: Vm, d: nat, e: int, f: File, lp: nat, t: nat)
    requires Inv(m) && IsCursor(d, e) && lp < TASK_PAGES
  {
    forall q: nat | FirstSharer(m, f, lp, t, q) :: q < NR_TASKS && (Place(q, lp); Keeps(m, d, e, q * TASK_PAGES + lp))
  }

  lemma ShareKeptIf(m: Vm, d: nat, e: int, f: File, lp: nat, t: nat)
    requires Inv(m) && IsCursor(d, e) && lp < TASK_PAGES
    ensures SomeFree(m) || (forall q: nat :: !CanShareFrom(m, f, lp, t, q)) ==> ShareKept(m, d, e, f, lp, t)
  {
    hide InvBut, Keeps;
    forall q: nat | FirstSharer(m, f, lp, t, q) && SomeFree(m)
      ensures q < NR_TASKS && (Place(q, lp); Keeps(m, d, e, q * TASK_PAGES + lp))
    {
      Place(q, lp);
      KeepsIf(m, d, e, q * TASK_PAGES + lp);
    }
  }

  // ---------------------------------------------------------------- values read before get_free_page

  lemma InvCounts(m: Vm, but: int)
    requires InvBut(m, but)
    ensures CountsOk(m)
  {
  }

  /** un_wp_page on shared page q of entry v ends in n, after get_free_page has returned page p in state a. */
  ghost predicate Copied(a: Vm, p: nat, v: nat, q: nat, n: Vm)
    requires v < VM_SIZE && p < |a.frames| && q < |a.frames| && IsHeld(a, p)
  {
    n == a.(count := if q < LOW_PAGE then a.count else a.count[q - LOW_PAGE := Down(a.count[q - LOW_PAGE])],
            frames := a.frames[p := a.frames[q]], pte := a.pte[v := Present(p, true, false)],
            holds := a.holds[p - LOW_PAGE := 0])
  }

  lemma CopyResult(m: Vm, d: nat, e: int, a: Vm, p: nat, v: nat, q: nat, n: Vm)
    requires Inv(m) && IsCursor(d, e) && a == GetPage(m, d, e).m && p == GetPage(m, d, e).page && Allocated(m, a, p)
    requires v < VM_SIZE && m.pte[v].Present? && m.pte[v].page == q < |a.frames| && Copied(a, p, v, q, n)
    ensures CountsOk(n) <==> Keeps(m, d, e, v)
    ensures Keeps(m, d, e, v) || OneShort(n, q)
    ensures n.programs == m.programs && n.holds == m.holds
    ensures Keeps(m, d, e, v) ==>
      InvBut(n, v) && SameViews(m, n) && Writable(n, v) && (Inv(n) <==> View(m, v) == Backing(m, v))
    ensures SomeFree(m) ==> Keeps(m, d, e, v)
  {
    hide InvBut, GetPage, Allocated, View, Backing, CountsOk, Pinned, OneShort, Copied;
    GetPageEntries(m, d, e, v);
    KeepsIf(m, d, e, v);
    if Keeps(m, d, e, v) {
      CopyKept(m, a, p, v, q, n);
    } else {
      PresentEntry(m, v);
      LowPinned(m, v);
      CopyLost(m, a, p, v, q, n);
    }
  }

  lemma CopyKept(m: Vm, a: Vm, p: nat, v: nat, q: nat, n: Vm)
    requires Allocated(m, a, p) && v < VM_SIZE && m.pte[v].Present? && m.pte[v].page == q < |a.frames|
    requires a.pte[v] == m.pte[v] && Copied(a, p, v, q, n)
    ensures CountsOk(n) && n.programs == m.programs && n.holds == m.holds
    ensures InvBut(n, v) && SameViews(m, n) && Writable(n, v) && (Inv(n) <==> View(m, v) == Backing(m, v))
  {
    hide InvBut, View, Backing, CountsOk, Pinned;
    CopiedOk(m, a, p, v);
    CopyOnWriteIs(a, v, p);
    InvCounts(n, v);
    assert m.holds[p - LOW_PAGE := 1][p - LOW_PAGE := 0] == m.holds;
  }

  lemma CopyLost(m: Vm, a: Vm, p: nat, v: nat, q: nat, n: Vm)
    requires Allocated(m, a, p) && v < VM_SIZE && !a.pte[v].Present? && LOW_PAGE <= q < |a.frames|
    requires Copied(a, p, v, q, n)
    ensures OneShort(n, q) && !CountsOk(n) && n.programs == m.programs && n.holds == m.holds
  {
    hide InvBut, View, CountsOk, OneShort, KeepsPinned;
    StaleCopy(a, v, q, p, n);
    CountsOff(n, q);
    assert m.holds[p - LOW_PAGE := 1][p - LOW_PAGE := 0] == m.holds;
  }

  lemma LowPinned(m: Vm, v: nat)
    requires v < VM_SIZE && m.pte[v].Present? && m.pte[v].page < |m.frames|
    ensures m.pte[v].page < LOW_PAGE ==> Pinned(m, v)
  {
  }

  /** With a free page it is the copying step. */
  lemma CopyAlone(m: Vm, a: Vm, p: nat, v: nat, q: nat, n: Vm)
    requires Inv(m) && HighestFree(m, p) && a == Alloc(m, p)
    requires v < VM_SIZE && m.pte[v].Present? && m.pte[v].page == q < |a.frames| && Copied(a, p, v, q, n)
    ensures CopiedAlone(m, v, n)
  {
    AllocOk(m, p);
    hide InvBut, Inv;
    PresentEntry(a, v);
    CopyOnWriteIs(a, v, p);
  }

  /** try_to_share on page q of entry v ends in n; b is the state once the table is there. */
  lemma ShareResult(m: Vm, b: Vm, v: nat, w: nat, q: nat, n: Vm)
    requires Inv(m) && Inv(b) && SameViews(m, b) && b.programs == m.programs && |b.frames| == |m.frames|
    requires v < VM_SIZE && CleanIn(m, v) && m.pte[v].page == q < |m.frames|
    requires b.pte[v] == m.pte[v] || b.pte[v] == Absent
    requires Mappable(b, w) && v % TASK_PAGES == w % TASK_PAGES && Backing(m, v) == Backing(m, w)
    requires n == ShareNow(b, v, w, q)
    ensures CountsOk(n) <==> b.pte[v] == m.pte[v]
    ensures b.pte[v] == m.pte[v] || OneOver(n, q)
    ensures n.programs == m.programs && n.holds == b.holds
    ensures b.pte[v] == m.pte[v] ==> Inv(n) && SameViews(m, n) && Room(n) == Room(b)
    ensures b.pte[v] == m.pte[v] ==> SharedAt(n, w)
  {
    hide InvBut, View, CountsOk, OneOver;
    if b.pte[v] == m.pte[v] {
      PresentEntry(b, v);
      FreshShare(b, v, w);
      ShareOk(b, v, w);
      RoomShare(b, v, w, n);
      CleanView(b, v);
      AbsentView(b, w);
      SameViewsShared(b, w, v, n);
      SameViewsTransitive(m, b, n);
      InvCounts(n, -1);
    } else {
      StaleShare(b, v, w, q);
      CountsOff(n, q);
    }
  }
}
