// The blocks of lib/malloc.c: pages cut into blocks of one size, and which of them are in use.

module MallocSpec {
  import opened Kernel
  import opened Sequences

  const BUCKETS: nat := 9

  /** The sizes of bucket_dir[]. */
  function Size(k: nat): (s: nat)
    ensures s > 0
  {
    if k == 0 then 16 else 2 * Size(k - 1)
  }

  /** Blocks in a page. */
  function PerPage(k: nat): int {
    PAGE_SIZE / Size(k)
  }

  lemma Sizes()
    ensures Size(0) == 16 && Size(1) == 32 && Size(2) == 64 && Size(3) == 128 && Size(4) == 256
    ensures Size(5) == 512 && Size(6) == 1024 && Size(7) == 2048 && Size(8) == 4096
  {
    assert Size(2) == 64;
    assert Size(4) == 256;
    assert Size(6) == 1024;
  }

  lemma PageIsFull(k: nat)
    requires k < BUCKETS
    ensures PerPage(k) > 0 && PerPage(k) * Size(k) == PAGE_SIZE && Size(k) >= 16
    ensures Size(k) % 16 == 0
  {
    Sizes();
    assert k == 0 || k == 1 || k == 2 || k == 3 || k == 4 || k == 5 || k == 6 || k == 7 || k == 8;
  }

  /** A page in use, with the numbers of its free blocks in the order of its free list. */
  datatype Bucket = Bucket(page: nat, free: seq<nat>)

  /** For each size, the pages in use, in the order of the chain. */
  type Heap = seq<seq<Bucket>>

  ghost predicate BucketOk(b: Bucket, k: nat) {
    && b.page > 0 && Distinct(b.free) && |b.free| < PerPage(k)
    && (forall i: nat | i < |b.free| :: b.free[i] < PerPage(k))
  }

  /** Every page in use has a block in use, and serves one size. */
  ghost predicate Inv(h: Heap) {
    && |h| == BUCKETS
    && (forall k: nat, i: nat | k < BUCKETS && i < |h[k]| :: BucketOk(h[k][i], k))
    && (forall k: nat, i: nat, l: nat, j: nat
          | k < BUCKETS && i < |h[k]| && l < BUCKETS && j < |h[l]| && h[k][i].page == h[l][j].page ::
          k == l && i == j)
  }

  ghost predicate Used(h: Heap, page: nat) {
    exists k: nat, i: nat :: k < |h| && i < |h[k]| && h[k][i].page == page
  }

  function Address(page: nat, k: nat, slot: nat): nat {
    page * PAGE_SIZE + slot * Size(k)
  }

  /** Block `slot` of the page is handed out. */
  ghost predicate LiveAt(h: Heap, k: nat, i: nat, slot: nat) {
    k < |h| && i < |h[k]| && slot < PerPage(k) && slot !in h[k][i].free
  }

  /** The block with this number in this page is in use, for size k. */
  ghost predicate Live(h: Heap, k: nat, page: nat, slot: nat) {
    exists i: nat :: LiveAt(h, k, i, slot) && h[k][i].page == page
  }

  // ---------------------------------------------------------------- the two operations

  function Rest(k: nat): seq<nat> {
    seq(if PerPage(k) > 0 then PerPage(k) - 1 else 0, i requires 0 <= i => i + 1)
  }

  /** The first page of the chain with a free block; |chain| if there is none. */
  function Roomy(chain: seq<Bucket>): (i: nat)
    ensures i <= |chain|
    ensures forall j: nat | j < i :: chain[j].free == []
    ensures i < |chain| ==> chain[i].free != []
  {
    if chain == [] || chain[0].free != [] then 0 else 1 + Roomy(chain[1..])
  }

  lemma RoomyIs(chain: seq<Bucket>, i: nat)
    requires i <= |chain| && (forall j: nat | j < i :: chain[j].free == []) && (i < |chain| ==> chain[i].free != [])
    ensures Roomy(chain) == i
  {
  }

  datatype Got = Got(h: Heap, page: nat, slot: nat)

  /** malloc for size k; newPage is what get_free_page would give. */
  function Malloc(h: Heap, k: nat, newPage: nat): Got
    requires k < |h|
  {
    var i := Roomy(h[k]);
    if i < |h[k]| then
      var b := h[k][i];
      Got(h[k := h[k][i := b.(free := b.free[1..])]], b.page, b.free[0])
    else Got(h[k := [Bucket(newPage, Rest(k))] + h[k]], newPage, 0)
  }

  /** free_s of block `slot` of the i-th page of chain k. */
  function Freed(h: Heap, k: nat, i: nat, slot: nat): Heap
    requires k < |h| && i < |h[k]|
  {
    var b := h[k][i];
    if |b.free| + 1 == PerPage(k) then h[k := h[k][..i] + h[k][i + 1..]]
    else h[k := h[k][i := b.(free := [slot] + b.free)]]
  }

  // ---------------------------------------------------------------- blocks

  /** Blocks in use lie apart, whatever their sizes, each at a multiple of its size inside its page. */
  lemma Apart(h: Heap, k: nat, i: nat, s: nat, l: nat, j: nat, t: nat)
    requires Inv(h) && LiveAt(h, k, i, s) && LiveAt(h, l, j, t)
    ensures var a, b := Address(h[k][i].page, k, s), Address(h[l][j].page, l, t);
      && (a == b ==> k == l && i == j && s == t)
      && (a != b ==> a + Size(k) <= b || b + Size(l) <= a)
      && a / PAGE_SIZE == h[k][i].page && (a + Size(k) - 1) / PAGE_SIZE == h[k][i].page
  {
    InPage(h[k][i].page, k, s);
    InPage(h[l][j].page, l, t);
    if h[k][i].page == h[l][j].page {
      if s < t { SlotsApart(k, s, t); }
      if t < s { SlotsApart(k, t, s); }
    }
  }

  lemma InPage(page: nat, k: nat, slot: nat)
    requires k < BUCKETS && slot < PerPage(k)
    ensures page * PAGE_SIZE <= Address(page, k, slot) && Address(page, k, slot) + Size(k) <= (page + 1) * PAGE_SIZE
    ensures Address(page, k, slot) / PAGE_SIZE == page && (Address(page, k, slot) + Size(k) - 1) / PAGE_SIZE == page
  {
    PageIsFull(k);
    var s, n := Size(k), PerPage(k);
    SlotsApart(k, slot, n);
  }

  lemma SlotsApart(k: nat, s: nat, t: nat)
    requires s < t
    ensures s * Size(k) + Size(k) <= t * Size(k)
  {
    Multiples(s + 1, t, Size(k));
  }

  lemma Multiples(s: nat, t: nat, z: nat)
    requires s <= t
    ensures s * z <= t * z && (s + 1) * z == s * z + z
  {
  }

  lemma MallocInv(h: Heap, k: nat, newPage: nat)
    requires Inv(h) && k < BUCKETS && newPage > 0 && !Used(h, newPage)
    ensures Inv(Malloc(h, k, newPage).h)
  {
    PageIsFull(k);
    var i := Roomy(h[k]);
    var n: Heap := Malloc(h, k, newPage).h;
    if i < |h[k]| {
      var b := h[k][i];
      assert BucketOk(b, k);
      assert BucketOk(b.(free := b.free[1..]), k);
      assert forall l: nat, j: nat | l < BUCKETS && j < |n[l]| :: j < |h[l]| && n[l][j].page == h[l][j].page;
    } else {
      assert BucketOk(n[k][0], k);
      forall l: nat, j: nat | l < BUCKETS && j < |n[l]|
        ensures BucketOk(n[l][j], l)
        ensures (l == k && j == 0) || n[l][j] == h[l][if l == k then j - 1 else j]
      {
      }
      assert forall l: nat, j: nat | l < BUCKETS && j < |h[l]| :: h[l][j].page != newPage;
    }
  }

  lemma FreedInv(h: Heap, k: nat, i: nat, slot: nat)
    requires Inv(h) && LiveAt(h, k, i, slot)
    ensures Inv(Freed(h, k, i, slot))
  {
    var n: Heap := Freed(h, k, i, slot);
    var b := h[k][i];
    assert BucketOk(b, k);
    if |b.free| + 1 == PerPage(k) {
      assert forall l: nat, j: nat | l < BUCKETS && j < |n[l]| ::
        n[l][j] == h[l][if l == k && j >= i then j + 1 else j];
    } else {
      FreedBucket(b, k, slot);
    }
  }

  lemma FreedBucket(b: Bucket, k: nat, slot: nat)
    requires BucketOk(b, k) && slot < PerPage(k) && slot !in b.free && |b.free| + 1 < PerPage(k)
    ensures BucketOk(b.(free := [slot] + b.free), k)
  {
    JoinDistinct([slot], b.free);
  }

  // ---------------------------------------------------------------- what they promise

  /** malloc hands out a block that was not in use, and nothing else changes. */
  lemma MallocLive(h: Heap, k: nat, newPage: nat, l: nat, page: nat, slot: nat)
    requires Inv(h) && k < BUCKETS && newPage > 0 && !Used(h, newPage)
    ensures var g := Malloc(h, k, newPage); !Live(h, k, g.page, g.slot)
    ensures var g := Malloc(h, k, newPage);
      Live(g.h, l, page, slot) <==> Live(h, l, page, slot) || (l == k && page == g.page && slot == g.slot)
  {
    PageIsFull(k);
    var g, i := Malloc(h, k, newPage), Roomy(h[k]);
    var n: Heap := g.h;
    if i < |h[k]| {
      var b := h[k][i];
      assert BucketOk(b, k);
      forall m: nat, j: nat, t: nat
        ensures LiveAt(n, m, j, t) <==> LiveAt(h, m, j, t) || (m == k && j == i && t == g.slot)
      {
        assert b.free == [b.free[0]] + b.free[1..];
      }
      assert LiveAt(n, k, i, g.slot);
    } else {
      var rest := Rest(k);
      forall t: nat ensures t in rest <==> 0 < t < PerPage(k) {
        if 0 < t < PerPage(k) { assert rest[t - 1] == t; }
      }
      forall m: nat, j: nat, t: nat
        ensures LiveAt(n, m, j, t) <==> if m == k && j == 0 then t == 0 else LiveAt(h, m, if m == k then j - 1
          else j, t)
      {
      }
      assert LiveAt(n, k, 0, 0);
      if j: nat :| LiveAt(h, l, j, slot) && h[l][j].page == page {
        assert LiveAt(n, l, if l == k then j + 1 else j, slot);
      }
    }
  }

  /** A new page is taken only when every block of every page of that size is in use. */
  lemma MallocFrugal(h: Heap, k: nat, newPage: nat)
    requires Inv(h) && k < BUCKETS && newPage > 0 && !Used(h, newPage)
    ensures Used(Malloc(h, k, newPage).h, newPage) <==>
      forall i: nat, slot: nat | i < |h[k]| && slot < PerPage(k) :: LiveAt(h, k, i, slot)
  {
    var i := Roomy(h[k]);
    var n: Heap := Malloc(h, k, newPage).h;
    if i < |h[k]| {
      var b := h[k][i];
      assert BucketOk(b, k) && b.free[0] in b.free && !LiveAt(h, k, i, b.free[0]);
      forall l: nat, j: nat | l < |n| && j < |n[l]| ensures n[l][j].page != newPage {
        assert n[l][j].page == h[l][j].page;
      }
    } else {
      assert n[k][0].page == newPage;
    }
  }

  /** free_s ends the use of its block, and nothing else changes. */
  lemma FreedLive(h: Heap, k: nat, i: nat, slot: nat, l: nat, page: nat, t: nat)
    requires Inv(h) && LiveAt(h, k, i, slot)
    ensures Live(Freed(h, k, i, slot), l, page, t) <==>
      Live(h, l, page, t) && !(l == k && page == h[k][i].page && t == slot)
  {
    var n: Heap := Freed(h, k, i, slot);
    var b := h[k][i];
    assert BucketOk(b, k);
    if |b.free| + 1 == PerPage(k) {
      LastOne(b.free, PerPage(k), slot);
      if j: nat :| LiveAt(h, l, j, t) && h[l][j].page == page && !(l == k && j == i) {
        assert LiveAt(n, l, if l == k && j > i then j - 1 else j, t);
      }
      if j: nat :| LiveAt(n, l, j, t) && n[l][j].page == page {
        assert LiveAt(h, l, if l == k && j >= i then j + 1 else j, t);
      }
    } else {
      forall m: nat, j: nat, u: nat
        ensures LiveAt(n, m, j, u) <==> LiveAt(h, m, j, u) && !(m == k && j == i && u == slot)
      {
      }
    }
  }

  /** If all others are free, the block is the only one in use. */
  lemma LastOne(free: seq<nat>, n: nat, slot: nat)
    requires Distinct(free) && |free| + 1 == n && slot < n && slot !in free && forall i: nat | i < |free| :: free[i] < n
    ensures forall t: nat | t < n && t != slot :: t in free
  {
    forall t: nat | t < n && t != slot ensures t in free {
      if t !in free { TooMany(free, n, slot, t); }
    }
  }

  lemma {:induction false} TooMany(s: seq<nat>, n: nat, a: nat, b: nat)
    requires Distinct(s) && a < n && b < n && a != b && a !in s && b !in s && forall i: nat | i < |s| :: s[i] < n
    ensures |s| + 2 <= n
  {
    var all := s + [a] + [b];
    assert Distinct(all);
    DistinctBound(all, n);
  }

  /** A page goes back exactly when its last block is freed. */
  lemma PageReturned(h: Heap, k: nat, i: nat, slot: nat)
    requires Inv(h) && LiveAt(h, k, i, slot)
    ensures Used(Freed(h, k, i, slot), h[k][i].page) <==> exists t: nat :: t != slot && LiveAt(h, k, i, t)
  {
    var n: Heap := Freed(h, k, i, slot);
    var b := h[k][i];
    assert BucketOk(b, k);
    if |b.free| + 1 == PerPage(k) {
      LastOne(b.free, PerPage(k), slot);
      forall l: nat, j: nat | l < |n| && j < |n[l]| ensures n[l][j].page != b.page {
        assert n[l][j] == h[l][if l == k && j >= i then j + 1 else j];
      }
    } else {
      assert n[k][i].page == b.page;
      var t := SomeOther([slot] + b.free, PerPage(k));
      assert LiveAt(h, k, i, t);
    }
  }

  lemma SomeOther(s: seq<nat>, n: nat) returns (t: nat)
    requires |s| < n
    ensures t < n && t !in s
  {
    t := 0;
    if forall x: nat | x < n :: x in s {
      Crowded(s, n);
    } else {
      t :| t < n && t !in s;
    }
  }

  /** Freeing what was just got restores everything, the order of the lists included. */
  lemma FreeUndoesMalloc(h: Heap, k: nat, newPage: nat)
    requires Inv(h) && k < BUCKETS && newPage > 0 && !Used(h, newPage)
    ensures var g := Malloc(h, k, newPage); var i := if Roomy(h[k]) < |h[k]| then Roomy(h[k]) else 0;
      LiveAt(g.h, k, i, g.slot) && g.h[k][i].page == g.page && Freed(g.h, k, i, g.slot) == h
  {
    if Roomy(h[k]) < |h[k]| { UndoInPage(h, k, newPage); } else { UndoNewPage(h, k, newPage); }
  }

  lemma UndoInPage(h: Heap, k: nat, newPage: nat)
    requires Inv(h) && k < BUCKETS && Roomy(h[k]) < |h[k]|
    ensures var g, i := Malloc(h, k, newPage), Roomy(h[k]);
      LiveAt(g.h, k, i, g.slot) && g.h[k][i].page == g.page && Freed(g.h, k, i, g.slot) == h
  {
    var i := Roomy(h[k]);
    var n: Heap := Malloc(h, k, newPage).h;
    var b := h[k][i];
    assert BucketOk(b, k);
    var m := b.(free := b.free[1..]);
    assert n == h[k := h[k][i := m]];
    assert n[k][i] == m && [b.free[0]] + m.free == b.free;
    assert n[k][i := b] == h[k];
    assert n[k := h[k]] == h;
  }

  lemma UndoNewPage(h: Heap, k: nat, newPage: nat)
    requires Inv(h) && k < BUCKETS && Roomy(h[k]) == |h[k]|
    ensures var g := Malloc(h, k, newPage);
      LiveAt(g.h, k, 0, g.slot) && g.h[k][0].page == g.page && Freed(g.h, k, 0, g.slot) == h
  {
    PageIsFull(k);
    var n: Heap := Malloc(h, k, newPage).h;
    assert |Rest(k)| + 1 == PerPage(k);
    assert n[k][..0] + n[k][1..] == h[k];
    assert n[k := h[k]] == h;
  }

  // ---------------------------------------------------------------- an unused page

  function Above(chain: seq<Bucket>): (n: nat)
    ensures n > 0 && forall i: nat | i < |chain| :: chain[i].page < n
  {
    if chain == [] then 1
    else if chain[0].page >= Above(chain[1..]) then chain[0].page + 1 else Above(chain[1..])
  }

  function AboveAll(h: Heap): (n: nat)
    ensures n > 0 && forall k: nat, i: nat | k < |h| && i < |h[k]| :: h[k][i].page < n
  {
    if h == [] then 1
    else if Above(h[0]) >= AboveAll(h[1..]) then Above(h[0]) else AboveAll(h[1..])
  }

  lemma FreshPage(h: Heap) returns (p: nat)
    ensures p > 0 && !Used(h, p)
  {
    p := AboveAll(h);
  }
}
