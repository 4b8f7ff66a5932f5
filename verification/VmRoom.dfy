// How many pages are free, and what faults and forks leave of them: with enough room none of them fails.

module VmRoom {
  import opened Kernel
  import opened VmState
  import opened VmSteps
  import opened VmRelations

  ghost function FreePages(m: Vm): set<nat> {
    set p: nat | p < |m.frames| && IsFree(m, p)
  }

  ghost function Room(m: Vm): nat { |FreePages(m)| }

  lemma RoomIsFree(m: Vm)
    ensures SomeFree(m) <==> Room(m) > 0
  {
    if SomeFree(m) {
      var p: nat :| IsFree(m, p);
      assert p in FreePages(m);
    }
    if Room(m) > 0 {
      var p :| p in FreePages(m);
    }
  }

  lemma RoomAlloc(m: Vm, p: nat)
    requires IsFree(m, p)
    ensures Room(Alloc(m, p)) == Room(m) - 1
  {
    var n := Alloc(m, p);
    assert FreePages(n) == FreePages(m) - {p};
  }

  /** Only the zeros of mem_map[] matter. */
  lemma RoomSame(m: Vm, n: Vm)
    requires |n.frames| == |m.frames|
    requires forall i: nat | i < PAGING_PAGES :: n.count[i] == 0 <==> m.count[i] == 0
    ensures Room(n) == Room(m)
  {
    forall p: nat ensures IsFree(n, p) <==> IsFree(m, p) {
      if LOW_PAGE <= p < |m.frames| { assert n.count[p - LOW_PAGE] == 0 <==> m.count[p - LOW_PAGE] == 0; }
    }
    assert FreePages(n) == FreePages(m);
  }

  lemma RoomShare(m: Vm, v: nat, w: nat, n: Vm)
    requires Inv(m) && Shared(m, v, w, n)
    ensures Room(n) == Room(m)
  {
    PresentEntry(m, v);
    hide InvBut;
    RoomSame(m, n);
  }

  /** What get_free_page leaves. */
  lemma RoomAfter(m: Vm, n: Vm, p: nat)
    requires SomeFree(m) ==> IsFree(m, p) && n == Alloc(m, p)
    ensures Room(m) >= 2 ==> SomeFree(n)
  {
    RoomIsFree(m);
    RoomIsFree(n);
    if SomeFree(m) { RoomAlloc(m, p); }
  }

  /** One page has gone if a table for entry w was missing, provided that one was free. */
  ghost predicate TableSpent(m: Vm, n: Vm, w: nat)
    requires w < VM_SIZE
  {
    m.dir[w / 1024].Some? || SomeFree(m) ==> Room(n) == Room(m) - if m.dir[w / 1024].Some? then 0 else 1
  }

  lemma StillFree(m: Vm, n: Vm)
    requires n.count == m.count && |n.frames| == |m.frames|
    ensures SomeFree(n) <==> SomeFree(m)
  {
    assert forall p: nat :: IsFree(n, p) <==> IsFree(m, p);
  }

  // ---------------------------------------------------------------- fork

  ghost function SwappedIn(m: Vm, lo: nat, hi: nat): set<nat> {
    set v: nat | lo <= v < hi && v < VM_SIZE && m.pte[v].Swapped?
  }

  /** Free pages left once every swapped page from entry lo on has been brought in. */
  ghost function Slack(m: Vm, lo: nat, hi: nat): int {
    Room(m) - |SwappedIn(m, lo, hi)|
  }

  lemma SubsetSize(s: set<nat>, t: set<nat>)
    requires s <= t
    ensures |s| <= |t|
  {
    assert t == s + (t - s);
  }

  /** The same entries or fewer, the same room. */
  lemma SlackKeeps(m: Vm, n: Vm, lo: nat, k: nat, hi: nat)
    requires Room(n) >= Room(m) && lo <= k
    requires forall v: nat | k <= v < hi && v < VM_SIZE && n.pte[v].Swapped? :: m.pte[v].Swapped?
    ensures Slack(n, k, hi) >= Slack(m, lo, hi)
  {
    SubsetSize(SwappedIn(n, k, hi), SwappedIn(m, lo, hi));
  }

  lemma SlackProgram(m: Vm, n: Vm, lo: nat, hi: nat)
    requires n == m.(programs := n.programs)
    ensures Slack(n, lo, hi) == Slack(m, lo, hi)
  {
    RoomSame(m, n);
    assert SwappedIn(n, lo, hi) == SwappedIn(m, lo, hi);
  }

  /** A swapped entry claims a page of its own. */
  lemma SlackNext(m: Vm, v: nat, hi: nat)
    requires v < hi && v < VM_SIZE && m.pte[v].Swapped?
    ensures |SwappedIn(m, v + 1, hi)| < |SwappedIn(m, v, hi)|
    ensures Slack(m, v, hi) >= 0 ==> SomeFree(m)
  {
    var s := SwappedIn(m, v, hi);
    assert v in s;
    SubsetSize(SwappedIn(m, v + 1, hi), s - {v});
    assert s == (s - {v}) + {v};
    RoomIsFree(m);
  }

  /** A free page becomes a page table. */
  lemma SlackTable(m: Vm, a: Vm, d: nat, p: nat, lo: nat, hi: nat)
    requires SomeFree(m) ==> HighestFree(m, p) && a == Alloc(m, p)
    requires IsHeld(a, p) && TASK_DIRS <= d < TABLE_SIZE && a.dir[d].None?
    ensures Slack(m, lo, hi) > 0 ==> Slack(SetTable(a, d, p), lo, hi) == Slack(m, lo, hi) - 1
  {
    RoomIsFree(m);
    if SomeFree(m) {
      RoomAlloc(m, p);
      RoomSame(a, SetTable(a, d, p));
      assert SwappedIn(SetTable(a, d, p), lo, hi) == SwappedIn(m, lo, hi);
    }
  }

  /** A free page takes the swapped page of entry v, whose slot goes to entry w outside the range. */
  lemma SlackGive(m: Vm, a: Vm, v: nat, w: nat, p: nat, hi: nat)
    requires SomeFree(m) ==> HighestFree(m, p) && a == Alloc(m, p)
    requires IsHeld(a, p) && v < hi && v < VM_SIZE && Mappable(a, w) && a.dir[v / 1024].Some? && !(v <= w < hi)
    requires m.pte[v].Swapped? && a.pte[v].Swapped? && a.pte[v].slot < SWAP_BITS
    ensures Slack(m, v, hi) >= 0 ==> Slack(GiveSlot(a, v, w, p), v + 1, hi) >= Slack(m, v, hi)
  {
    SlackNext(m, v, hi);
    if Slack(m, v, hi) >= 0 {
      var n := GiveSlot(a, v, w, p);
      RoomAlloc(m, p);
      RoomSame(a, n);
      SubsetSize(SwappedIn(n, v + 1, hi), SwappedIn(m, v + 1, hi));
    }
  }

  /** A fork of `size` directory slots from fd on cannot run out of memory: the free pages suffice for the
      child's tables and for the parent's swapped pages, which come back one by one. */
  ghost predicate Fits(m: Vm, fd: nat, size: nat) {
    Slack(m, fd * 1024, (fd + size) * 1024) >= size
  }

  /** copy_page_tables has dealt with the child's pages below `next`; if the fork fits, there is room for
      `left` tables more and for the swapped pages yet to come. */
  ghost predicate Progress(m: Vm, n: Vm, fd: nat, td: nat, size: nat, next: nat, left: nat) {
    && Copying(m, n, fd, td, size, next) && CopyRange(m, fd, td, size)
    && (Fits(m, fd, size) ==> Slack(n, fd * 1024 + (next - td * 1024), (fd + size) * 1024) >= left)
  }

  /** It ran out of memory, which happens only to forks that do not fit. */
  ghost predicate OutOfMemory(m: Vm, n: Vm, fd: nat, td: nat, size: nat) {
    !Fits(m, fd, size) && exists next: nat :: Copying(m, n, fd, td, size, next)
  }

  lemma ProgressStart(m: Vm, fd: nat, td: nat, size: nat)
    requires Inv(m) && CopyRange(m, fd, td, size) && forall d: nat | td <= d < td + size :: m.dir[d].None?
    ensures Progress(m, m, fd, td, size, td * 1024, size)
  {
    hide InvBut, Slack;
    CopyNothing(m, fd, td, size);
  }

  lemma ProgressEnd(m: Vm, n: Vm, fd: nat, td: nat, size: nat)
    requires Progress(m, n, fd, td, size, (td + size) * 1024, 0)
    ensures Copying(m, n, fd, td, size, (td + size) * 1024)
  {
  }

  /** Where the next page comes from. */
  lemma ProgressSource(m: Vm, n: Vm, fd: nat, td: nat, size: nat, w: nat, left: nat)
    requires Progress(m, n, fd, td, size, w, left) && w < (td + size) * 1024
    ensures 0 <= Source(w, fd, td) < VM_SIZE && w < VM_SIZE
  {
    hide InvBut, Slack, Copying;
    assert w >= td * 1024 by { CopyingBounds(m, n, fd, td, size, w); }
    SourceOk(m, fd, td, size, w);
  }

  lemma CopyingBounds(m: Vm, n: Vm, fd: nat, td: nat, size: nat, w: nat)
    requires Copying(m, n, fd, td, size, w)
    ensures td * 1024 <= w <= (td + size) * 1024 && Inv(n)
  {
  }

  lemma ProgressNoTable(m: Vm, n: Vm, fd: nat, td: nat, size: nat, d: nat, left: nat)
    requires Progress(m, n, fd, td, size, d * 1024, left + 1) && td <= d < td + size && n.dir[fd + d - td].None?
    ensures Progress(m, n, fd, td, size, (d + 1) * 1024, left)
  {
    hide InvBut, Slack, Copying;
    CopyNoTable(m, n, fd, td, size, d);
    var lo := (fd + d - td) * 1024;
    SlackKeeps(n, n, lo, lo + 1024, (fd + size) * 1024);
  }

  lemma ProgressTable(m: Vm, n: Vm, a: Vm, p: nat, fd: nat, td: nat, size: nat, d: nat, left: nat)
    requires Progress(m, n, fd, td, size, d * 1024, left + 1) && Allocated(n, a, p)
    requires SomeFree(n) ==> HighestFree(n, p) && a == Alloc(n, p)
    requires td <= d < td + size && TASK_DIRS <= d < TABLE_SIZE && a.dir[d].None?
    ensures Progress(m, SetTable(a, d, p), fd, td, size, d * 1024, left)
  {
    hide InvBut, Slack, Copying;
    CopyTable(m, n, a, p, fd, td, size, d * 1024, d);
    SlackTable(n, a, d, p, (fd + d - td) * 1024, (fd + size) * 1024);
  }

  lemma ProgressAbsent(m: Vm, n: Vm, fd: nat, td: nat, size: nat, w: nat, left: nat)
    requires Progress(m, n, fd, td, size, w, left) && w < (td + size) * 1024
    requires 0 <= Source(w, fd, td) < VM_SIZE && n.pte[Source(w, fd, td)] == Absent
    ensures Progress(m, n, fd, td, size, w + 1, left)
  {
    hide InvBut, Slack, Copying;
    CopyingBounds(m, n, fd, td, size, w);
    CopySkip(m, n, fd, td, size, w);
    var v: nat := Source(w, fd, td);
    SlackKeeps(n, n, v, v + 1, (fd + size) * 1024);
  }

  lemma ProgressShareable(m: Vm, n: Vm, fd: nat, td: nat, size: nat, w: nat, v: nat, left: nat)
    requires Progress(m, n, fd, td, size, w, left) && w < (td + size) * 1024
    requires v == Source(w, fd, td) && v < VM_SIZE && w < VM_SIZE && n.pte[v].Present? && n.dir[w / 1024].Some?
    ensures Shareable(n, v, w) && Backing(n, v) == Backing(n, w)
  {
    hide InvBut, Slack, Copying, View, Backing;
    CopyingBounds(m, n, fd, td, size, w);
    CopyShareable(m, n, fd, td, size, w);
  }

  lemma ProgressShare(m: Vm, n: Vm, n': Vm, fd: nat, td: nat, size: nat, w: nat, v: nat, left: nat)
    requires Progress(m, n, fd, td, size, w, left) && w < (td + size) * 1024 && v == Source(w, fd, td)
    requires Shared(n, v, w, n') && Backing(n, v) == Backing(n, w)
    ensures Progress(m, n', fd, td, size, w + 1, left)
  {
    hide InvBut, Slack, Copying, View, Backing, Shared, CopyRange;
    CopyingBounds(m, n, fd, td, size, w);
    CopyShared(m, n, n', fd, td, size, w, v);
    RoomShare(n, v, w, n');
    SharedShape(n, v, w, n');
    SourceOk(m, fd, td, size, w);
    SlackKeeps(n, n', v, v + 1, (fd + size) * 1024);
  }

  /** Sharing rewrites two entries and one reference byte. */
  lemma SharedShape(m: Vm, v: nat, w: nat, n: Vm)
    requires Shared(m, v, w, n)
    ensures v < VM_SIZE && w < VM_SIZE && m.pte[v].Present?
    ensures n.programs == m.programs && n.holds == m.holds && n.reserved == m.reserved
    ensures |n.frames| == |m.frames| && n.dir == m.dir
    ensures forall u: nat | u < VM_SIZE && n.pte[u].Swapped? :: m.pte[u].Swapped?
    ensures forall u: nat | u < VM_SIZE && u != w && m.pte[u] == Absent :: n.pte[u] == Absent
  {
  }

  lemma CopyShared(m: Vm, n: Vm, n': Vm, fd: nat, td: nat, size: nat, w: nat, v: nat)
    requires CopyRange(m, fd, td, size) && Copying(m, n, fd, td, size, w) && w < (td + size) * 1024
    requires v == Source(w, fd, td) && Shared(n, v, w, n') && Backing(n, v) == Backing(n, w)
    ensures Copying(m, n', fd, td, size, w + 1)
  {
    hide InvBut, View, Backing, Copying, CopyRange, Share, Shareable;
    CopyingBounds(m, n, fd, td, size, w);
    SharedShape(n, v, w, n');
    ShareOk(n, v, w);
    CopyStep(m, n, n', fd, td, size, w);
  }

  lemma ProgressSwapped(m: Vm, n: Vm, a: Vm, p: nat, fd: nat, td: nat, size: nat, w: nat, left: nat)
    requires Progress(m, n, fd, td, size, w, left) && w < (td + size) * 1024
    requires 0 <= Source(w, fd, td) < VM_SIZE && n.pte[Source(w, fd, td)].Swapped? && n.dir[w / 1024].Some?
    requires Allocated(n, a, p) && (SomeFree(n) ==> HighestFree(n, p) && a == Alloc(n, p))
    ensures var v: nat := Source(w, fd, td);
      && Mappable(a, w) && a.pte[v] == n.pte[v] && 0 < a.pte[v].slot < SWAP_BITS && a.dir[v / 1024].Some?
      && Progress(m, GiveSlot(a, v, w, p), fd, td, size, w + 1, left)
  {
    hide InvBut, Slack, Copying, View, Backing;
    CopyingBounds(m, n, fd, td, size, w);
    var v: nat := Source(w, fd, td);
    SwappedSlot(n, v);
    CopySwapped(m, n, a, p, fd, td, size, w);
    SourceOk(m, fd, td, size, w);
    SlackGive(n, a, v, w, p, (fd + size) * 1024);
  }

  /** No page was free for the next table, or for the next swapped page. */
  lemma ProgressCopying(m: Vm, n: Vm, fd: nat, td: nat, size: nat, next: nat, left: nat)
    requires Progress(m, n, fd, td, size, next, left)
    ensures Copying(m, n, fd, td, size, next)
  {
  }

  lemma ProgressFails(m: Vm, n: Vm, n': Vm, fd: nat, td: nat, size: nat, next: nat, left: nat)
    requires Progress(m, n, fd, td, size, next, left) && Evicted(n, n') && !SomeFree(n)
    requires left > 0 || (next < (td + size) * 1024 && 0 <= Source(next, fd, td) < VM_SIZE
                          && n.pte[Source(next, fd, td)].Swapped?)
    ensures OutOfMemory(m, n', fd, td, size)
  {
    hide InvBut, Copying, Evicted, CopyRange;
    CopyingBounds(m, n, fd, td, size, next);
    CopyEvicted(m, n, n', fd, td, size, next);
    RoomIsFree(n);
    if left == 0 { SlackNext(n, Source(next, fd, td), (fd + size) * 1024); }
  }
}
