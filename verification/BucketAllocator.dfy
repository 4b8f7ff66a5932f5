// lib/malloc.c: bucket descriptors in chains, free lists threaded through the pages, malloc and free_s.

module BucketAllocator {
  import opened Kernel
  import opened MallocSpec
  import opened Sequences

  const UNIT: nat := 16
  const DESCS_PER_PAGE: nat := 256
  /** The number of the list of unused descriptors, after the nine chains. */
  const SPARE: nat := BUCKETS

  /** next is an index or NULL; freeptr an address or 0. */
  datatype Desc = Desc(page: nat, next: int, freeptr: int, refcnt: int, size: nat)

  // ---------------------------------------------------------------- lists of descriptors

  ghost predicate LinkedAt(descs: seq<Desc>, list: seq<nat>, i: nat)
    requires i < |list|
  {
    list[i] < |descs| && descs[list[i]].next == At(list, i + 1)
  }

  ghost predicate Linked(descs: seq<Desc>, head: int, list: seq<nat>) {
    head == At(list, 0) && Distinct(list) && forall i: nat | i < |list| :: LinkedAt(descs, list, i)
  }

  /** Every descriptor is in exactly one list, that of its owner. */
  ghost predicate Owned(descs: seq<Desc>, lists: seq<seq<nat>>, owner: seq<nat>) {
    && |owner| == |descs| && |lists| == BUCKETS + 1
    && forall l: nat | l <= SPARE :: OwnedList(descs, lists[l], owner, l)
  }

  ghost predicate OwnedList(descs: seq<Desc>, list: seq<nat>, owner: seq<nat>, l: nat) {
    forall d: nat :: d in list <==> d < |descs| && d < |owner| && owner[d] == l
  }

  // ---------------------------------------------------------------- pages and their free lists

  /** The address of the i-th free block, 0 if there are not so many. */
  function FreeAddress(b: Bucket, k: nat, i: int): int {
    if 0 <= i < |b.free| then Address(b.page, k, b.free[i]) else 0
  }

  ghost predicate Describes(d: Desc, b: Bucket, k: nat) {
    d.page == b.page && d.size == Size(k) && d.refcnt == PerPage(k) - |b.free| && d.freeptr == FreeAddress(b, k, 0)
  }

  ghost predicate ThreadedAt(word: seq<int>, b: Bucket, k: nat, i: nat)
    requires i < |b.free|
  {
    var u := Address(b.page, k, b.free[i]) / UNIT; u < |word| && word[u] == FreeAddress(b, k, i + 1)
  }

  /** The free blocks of the page are linked through their first words. */
  ghost predicate Threaded(word: seq<int>, b: Bucket, k: nat) {
    (b.page + 1) * (PAGE_SIZE / UNIT) <= |word| && forall i: nat | i < |b.free| :: ThreadedAt(word, b, k, i)
  }

  ghost predicate ChainOk(descs: seq<Desc>, word: seq<int>, list: seq<nat>, chain: seq<Bucket>, k: nat) {
    && |list| == |chain|
    && (forall i: nat | i < |list| :: list[i] < |descs| && Describes(descs[list[i]], chain[i], k))
    && (forall i: nat | i < |list| :: Threaded(word, chain[i], k))
  }

  class Allocator {
    var descs: seq<Desc>
    const chain: array<int>
    var freeDesc: int
    /** The first word of every 16 bytes of memory. */
    const word: array<int>
    /** What get_free_page can give. */
    var pool: set<nat>
    ghost var heap: Heap
    ghost var lists: seq<seq<nat>>
    ghost var owner: seq<nat>

    ghost predicate Lists()
      reads this, chain
    {
      && chain != word && chain.Length == BUCKETS && |lists| == BUCKETS + 1
      && (forall k: nat | k < BUCKETS :: Linked(descs, chain[k], lists[k]))
      && Linked(descs, freeDesc, lists[SPARE])
      && Owned(descs, lists, owner)
    }

    ghost predicate Chains()
      reads this, word
    {
      |lists| == BUCKETS + 1 && |heap| == BUCKETS && forall k: nat | k < BUCKETS ::
        ChainOk(descs, word[..], lists[k], heap[k], k)
    }

    ghost predicate Pages()
      reads this, word
    {
      forall p: nat | p in pool :: p > 0 && !Used(heap, p) && (p + 1) * (PAGE_SIZE / UNIT) <= word.Length
    }

    ghost predicate Valid()
      reads this, chain, word
    {
      Inv(heap) && Lists() && Chains() && Pages()
    }

    constructor (pages: nat, free: set<nat>)
      requires forall p: nat | p in free :: 0 < p < pages
      ensures Valid() && fresh(chain) && fresh(word) && heap == seq(BUCKETS, _ => []) && pool == free
    {
      descs := [];
      chain := new int[BUCKETS](_ => NULL);
      freeDesc := NULL;
      word := new int[pages * (PAGE_SIZE / UNIT)](_ => 0);
      pool := free;
      heap := seq(BUCKETS, _ => []);
      lists := seq(BUCKETS + 1, _ => []);
      owner := [];
      new;
      forall p: nat | p in pool ensures (p + 1) * (PAGE_SIZE / UNIT) <= word.Length {
        Multiples(p + 1, pages, PAGE_SIZE / UNIT);
      }
    }

    /** The search of bucket_dir[]; BUCKETS if no size is large enough. */
    method FindSize(len: nat) returns (k: nat)
      ensures k <= BUCKETS && (k < BUCKETS ==> Size(k) >= len) && forall j: nat | j < k :: Size(j) < len
    {
      k := 0;
      while k < BUCKETS && Size(k) < len
        invariant k <= BUCKETS && forall j: nat | j < k :: Size(j) < len
      {
        k := k + 1;
      }
    }

    /** The search of a chain for a page with a free block. */
    method FindRoom(k: nat) returns (d: int, ghost i: nat)
      requires Valid() && k < BUCKETS
      ensures i == Roomy(heap[k]) && d == At(lists[k], i)
    {
      ghost var s, c := lists[k], heap[k];
      d := chain[k];
      i := 0;
      assert ChainOk(descs, word[..], s, c, k) && Linked(descs, chain[k], s);
      hide Threaded, Owned, Pages, Lists, Chains;
      while d != NULL && descs[d].freeptr == 0
        invariant i <= |s| == |c| && d == At(s, i) && (d != NULL ==> 0 <= d < |descs|)
        invariant forall j: nat | j < i :: c[j].free == []
        decreases |s| - i
      {
        FreeptrTells(descs[d], c[i], k);
        assert LinkedAt(descs, s, i);
        d := descs[d].next;
        i := i + 1;
      }
      if d != NULL { FreeptrTells(descs[d], c[i], k); }
      RoomyIs(c, i);
    }

    /** The end of malloc: the first free block of the i-th page of chain k. */
    method TakeBlock(k: nat, d: nat, ghost i: nat) returns (addr: nat)
      requires Lists() && Chains() && k < BUCKETS && i < |heap[k]| && i < |lists[k]| && d == lists[k][i]
      requires heap[k][i].free != []
      modifies `descs, `heap
      ensures Lists() && Chains()
      ensures addr == Address(old(heap)[k][i].page, k, old(heap)[k][i].free[0])
      ensures heap == WithBucket(old(heap), k, i, old(heap)[k][i].(free := old(heap)[k][i].free[1..]))
    {
      ghost var b, fs := heap[k][i], descs;
      assert ChainOk(descs, word[..], lists[k], heap[k], k);
      assert Describes(descs[d], b, k) && Threaded(word[..], b, k);
      TakeFirst(word[..], descs[d], b, k);
      addr := descs[d].freeptr;
      descs := descs[d := descs[d].(freeptr := word[addr / UNIT])];
      descs := descs[d := descs[d].(refcnt := descs[d].refcnt + 1)];
      OneChanged(fs, word[..], k, i, descs[d], b.(free := b.free[1..]));
      heap := WithBucket(heap, k, i, b.(free := b.free[1..]));
    }

    /** Only the i-th page of chain k and its descriptor x have changed, not the links. */
    lemma OneChanged(was: seq<Desc>, words: seq<int>, k: nat, i: nat, x: Desc, b: Bucket)
      requires |lists| == BUCKETS + 1 && |heap| == BUCKETS && k < BUCKETS && chain.Length == BUCKETS && chain != word
      requires forall l: nat | l < BUCKETS ::
        ChainOk(was, words, lists[l], heap[l], l) && Linked(was, chain[l], lists[l])
      requires Linked(was, freeDesc, lists[SPARE]) && Owned(was, lists, owner)
      requires i < |lists[k]| && lists[k][i] < |was| && x.next == was[lists[k][i]].next
      requires descs == was[lists[k][i] := x]
      requires Describes(x, b, k) && Threaded(word[..], b, k)
      requires forall l: nat, j: nat | l < BUCKETS && j < |heap[l]| && !(l == k && j == i) ::
        Threaded(word[..], heap[l][j], l)
      ensures forall l: nat | l < BUCKETS :: ChainOk(descs, word[..], lists[l], WithBucket(heap, k, i, b)[l], l)
      ensures Lists()
    {
      var d := lists[k][i];
      ChainUpdate(was, words, word[..], lists[k], heap[k], k, i, x, b);
      NotIn(was, lists, owner, d, k);
      forall l: nat | l < BUCKETS
        ensures ChainOk(descs, word[..], lists[l], WithBucket(heap, k, i, b)[l], l) && Linked(descs, chain[l], lists[l])
      {
        LinkedFrame(was, descs, chain[l], lists[l]);
        NotIn(was, lists, owner, d, l);
        if l != k { ChainFrame(was, descs, words, word[..], lists[l], heap[l], l); }
      }
      LinkedFrame(was, descs, freeDesc, lists[SPARE]);
      forall l: nat | l <= SPARE ensures OwnedList(descs, lists[l], owner, l) {
        assert OwnedList(was, lists[l], owner, l);
      }
    }

    /** The block goes to the front of its page's free list. */
    method PutBlock(k: nat, d: nat, addr: nat, ghost i: nat, ghost slot: nat)
      requires Valid() && LiveAt(heap, k, i, slot) && d == lists[k][i] && addr == Address(heap[k][i].page, k, slot)
      modifies `descs, `heap, word
      ensures Lists() && Chains()
      ensures heap == WithBucket(old(heap), k, i, old(heap)[k][i].(free := [slot] + old(heap)[k][i].free))
    {
      ghost var b, fs, ws := heap[k][i], descs, word[..];
      assert ChainOk(descs, ws, lists[k], heap[k], k) && BucketOk(b, k);
      assert Describes(descs[d], b, k) && Threaded(ws, b, k);
      PutFirst(ws, descs[d], b, k, slot);
      word[addr / UNIT] := descs[d].freeptr;
      descs := descs[d := descs[d].(freeptr := addr)];
      descs := descs[d := descs[d].(refcnt := descs[d].refcnt - 1)];
      forall l: nat, j: nat | l < BUCKETS && j < |heap[l]| && !(l == k && j == i)
        ensures Threaded(word[..], heap[l][j], l)
      {
        InPage(b.page, k, slot);
        Aligned(b.page, k, slot);
        assert ChainOk(fs, ws, lists[l], heap[l], l) && BucketOk(heap[l][j], l);
        OtherPage(ws, addr / UNIT, fs[d].freeptr, b.page, heap[l][j], l);
      }
      OneChanged(fs, ws, k, i, descs[d], b.(free := [slot] + b.free));
      heap := WithBucket(heap, k, i, b.(free := [slot] + b.free));
    }

    /** init_bucket_desc: a page of unused descriptors. */
    method InitBucketDesc() returns (ok: bool)
      requires Valid() && freeDesc == NULL
      modifies `descs, `freeDesc, `pool, `lists, `owner
      ensures ok == (old(pool) != {}) && Valid()
      ensures ok ==> freeDesc != NULL && pool < old(pool) && |old(pool) - pool| == 1
      ensures !ok ==> pool == old(pool)
      ensures |lists| == BUCKETS + 1 && forall k: nat | k < BUCKETS :: lists[k] == old(lists)[k]
    {
      if pool == {} {
        return false;
      }
      ok := true;
      ghost var was := descs;
      var page := TakePage();
      var first := |descs|;
      var table := descs;
      var i := 0;
      while i < DESCS_PER_PAGE - 1
        invariant 0 <= i < DESCS_PER_PAGE && |table| == first + i && table[..first] == was
        invariant forall j: nat | first <= j < first + i :: table[j] == Desc(0, j + 1, 0, 0, 0)
      {
        table := table + [Desc(0, |table| + 1, 0, 0, 0)];
        i := i + 1;
      }
      descs := table + [Desc(0, freeDesc, 0, 0, 0)];
      EmptyList(was, lists[SPARE]);
      freeDesc := first;
      MoreDescs(was, descs);
      owner := owner + seq(DESCS_PER_PAGE, _ => SPARE);
      lists := lists[SPARE := Spares(first)];
      SparesLinked(descs, first);
    }

    method TakePage() returns (page: nat)
      requires pool != {}
      modifies `pool
      ensures page in old(pool) && pool == old(pool) - {page}
    {
      page :| page in pool;
      pool := pool - {page};
    }

    lemma MoreDescs(was: seq<Desc>, now: seq<Desc>)
      requires |lists| == BUCKETS + 1 && |heap| == BUCKETS && chain.Length == BUCKETS
      requires |now| == |was| + DESCS_PER_PAGE && now[..|was|] == was && lists[SPARE] == []
      requires forall k: nat | k < BUCKETS ::
        Linked(was, chain[k], lists[k]) && ChainOk(was, word[..], lists[k], heap[k], k)
      requires Owned(was, lists, owner)
      ensures forall k: nat | k < BUCKETS ::
        Linked(now, chain[k], lists[k]) && ChainOk(now, word[..], lists[k], heap[k], k)
      ensures Owned(now, lists[SPARE := Spares(|was|)], owner + seq(DESCS_PER_PAGE, _ => SPARE))
    {
      assert forall d: nat | d < |was| ::
        now[d] == was[d] by { assert forall d: nat | d < |was| :: now[..|was|][d] == now[d]; }
      forall k: nat | k < BUCKETS
        ensures Linked(now, chain[k], lists[k]) && ChainOk(now, word[..], lists[k], heap[k], k)
      {
        LinkedFrame(was, now, chain[k], lists[k]);
        ChainFrame(was, now, word[..], word[..], lists[k], heap[k], k);
      }
      var os, ns := owner + seq(DESCS_PER_PAGE, _ => SPARE), lists[SPARE := Spares(|was|)];
      SparesAre(|was|);
      forall l: nat | l <= SPARE ensures OwnedList(now, ns[l], os, l) {
        assert OwnedList(was, lists[l], owner, l) && OwnedList(was, lists[SPARE], owner, SPARE);
        forall d: nat ensures d in ns[l] <==> d < |now| && d < |os| && os[d] == l {
          if d < |was| { assert os[d] == owner[d]; assert d in lists[SPARE] <==> owner[d] == SPARE; }
        }
      }
    }

    /** The loop of malloc that links all blocks of a new page. */
    method ThreadPage(p: nat, k: nat)
      requires k < BUCKETS && p > 0 && (p + 1) * (PAGE_SIZE / UNIT) <= word.Length
      modifies word
      ensures Threaded(word[..], Bucket(p, AllSlots(k)), k)
      ensures forall u: nat | u < word.Length && u * UNIT / PAGE_SIZE != p :: word[u] == old(word[u])
    {
      PageIsFull(k);
      hide Size, PerPage, ThreadedAt;
      ghost var b := Bucket(p, AllSlots(k));
      var cp := p * PAGE_SIZE;
      var i := PerPage(k);
      UnitInPage(p, k, 0);
      while i > 1
        invariant 1 <= i <= PerPage(k) && cp == Address(p, k, PerPage(k) - i)
        invariant forall j: nat | j < PerPage(k) - i :: ThreadedAt(word[..], b, k, j)
        invariant forall u: nat | u < word.Length && u * UNIT / PAGE_SIZE != p :: word[u] == old(word[u])
      {
        ghost var slot: nat := PerPage(k) - i;
        ghost var ws := word[..];
        UnitInPage(p, k, slot);
        word[cp / UNIT] := cp + Size(k);
        OneThreaded(ws, word[..], b, k, slot);
        cp := cp + Size(k);
        i := i - 1;
        Multiples(slot, slot + 1, Size(k));
      }
      ghost var ws := word[..];
      UnitInPage(p, k, PerPage(k) - 1);
      word[cp / UNIT] := 0;
      OneThreaded(ws, word[..], b, k, PerPage(k) - 1);
    }

    /** A new page, all free, becomes the first of chain k; it fails if there is none to be had. */
    method AddPage(k: nat) returns (ok: bool, ghost p: nat)
      requires Valid() && k < BUCKETS && freeDesc != NULL
      modifies `descs, `freeDesc, `pool, `heap, `lists, `owner, chain, word
      ensures ok == (old(pool) != {})
      ensures ok ==> p in old(pool) && pool == old(pool) - {p} && Lists() && Chains()
      ensures ok ==> heap == old(heap)[k := [Bucket(p, AllSlots(k))] + old(heap)[k]]
      ensures ok ==> lists[k] != [] && chain[k] == lists[k][0]
    {
      if pool == {} {
        return false, 0;
      }
      ok := true;
      p := LinkPage(k);
    }

    method LinkPage(k: nat) returns (page: nat)
      requires Valid() && k < BUCKETS && freeDesc != NULL && pool != {}
      modifies `descs, `freeDesc, `pool, `heap, `lists, `owner, chain, word
      ensures page in old(pool) && pool == old(pool) - {page} && Lists() && Chains()
      ensures heap == old(heap)[k := [Bucket(page, AllSlots(k))] + old(heap)[k]]
      ensures lists[k] != [] && chain[k] == lists[k][0]
    {
      hide Linked, Owned, Inv, Threaded, ChainOk, Used, Describes, AllSlots, Size, PerPage;
      var d := freeDesc;
      ghost var fs, ws, ls, hs, heads := descs, word[..], lists, heap, chain[..];
      SpareHead();
      freeDesc := descs[d].next;
      page := TakePage();
      var x := descs[d].(refcnt := 0, size := Size(k));
      x := x.(page := page, freeptr := page * PAGE_SIZE);
      ThreadPage(page, k);
      x := x.(next := chain[k]);
      descs := descs[d := x];
      chain[k] := d;
      NewDescribes(x, page, k);
      PageAdded(fs, descs, ws, word[..], ls, hs, owner, k, d, Bucket(page, AllSlots(k)), heads);
      owner := owner[d := k];
      lists := ls[SPARE := ls[SPARE][1..]][k := [d] + ls[k]];
      heap := hs[k := [Bucket(page, AllSlots(k))] + hs[k]];
    }

    /** malloc: the block it hands out, as Malloc says, from the pages there are or a new one. It fails exactly
        if the length is more than a page or a new page is needed and cannot be had, with one more for
        descriptors if they are used up. */
    method Kmalloc(len: nat) returns (ok: bool, addr: nat, ghost k: nat, ghost page: nat)
      requires Valid()
      modifies `descs, `freeDesc, `pool, `heap, `lists, `owner, chain, word
      ensures len > PAGE_SIZE ==> !ok
      ensures len <= PAGE_SIZE ==> k < BUCKETS && len <= Size(k) && forall j: nat | j < k :: Size(j) < len
      ensures len <= PAGE_SIZE ==>
        (ok <==> Roomy(old(heap)[k]) < |old(heap)[k]| || |old(pool)| >= if old(freeDesc) == NULL then 2 else 1)
      ensures ok ==> Valid()
      ensures ok ==> heap == Malloc(old(heap), k, page).h
      ensures ok ==> addr == Address(Malloc(old(heap), k, page).page, k, Malloc(old(heap), k, page).slot)
      ensures ok ==> if Roomy(old(heap)[k]) < |old(heap)[k]| then pool == old(pool)
        else page in old(pool) && page !in pool && pool < old(pool)
    {
      hide Linked, Owned, Threaded, ChainOk, PerPage, Used;
      var size := FindSize(len);
      k, page := size, 0;
      if size == BUCKETS {
        Sizes();
        return false, 0, size, 0;
      }
      Sizes();
      ChainLengths();
      var d, i := FindRoom(size);
      if d != NULL {
        addr := TakeBlock(size, d, i);
        MallocKeeps(old(heap), size, 0);
        ok := true;
      } else {
        ok, addr, page := TakeNew(size);
      }
    }

    /** malloc when no page of the size has room. */
    method TakeNew(k: nat) returns (ok: bool, addr: nat, ghost page: nat)
      requires Valid() && k < BUCKETS && Roomy(heap[k]) == |heap[k]|
      modifies `descs, `freeDesc, `pool, `heap, `lists, `owner, chain, word
      ensures ok <==> |old(pool)| >= if old(freeDesc) == NULL then 2 else 1
      ensures ok ==> Valid() && page in old(pool) && page !in pool && pool < old(pool)
      ensures ok ==> heap == Malloc(old(heap), k, page).h && addr == Address(page, k, 0)
    {
      addr, page := 0, 0;
      if freeDesc == NULL {
        var more := InitBucketDesc();
        if !more { return false, 0, 0; }
        TwoLeft(old(pool), pool);
      }
      ok, addr, page := TakeFromNewPage(k);
    }

    method TakeFromNewPage(k: nat) returns (ok: bool, addr: nat, ghost page: nat)
      requires Valid() && k < BUCKETS && Roomy(heap[k]) == |heap[k]| && freeDesc != NULL
      modifies `descs, `freeDesc, `pool, `heap, `lists, `owner, chain, word
      ensures ok == (old(pool) != {})
      ensures ok ==> Valid() && page in old(pool) && pool == old(pool) - {page}
      ensures ok ==> heap == Malloc(old(heap), k, page).h && addr == Address(page, k, 0)
    {
      hide Linked, Owned, Inv, Threaded, ChainOk, Used, AllSlots, Size, PerPage, Rest;
      addr := 0;
      ok, page := AddPage(k);
      if !ok { return false, 0, 0; }
      AllButFirst(k);
      ghost var h := heap;
      assert h[k][0] == Bucket(page, AllSlots(k));
      ChainLengths();
      addr := TakeBlock(k, chain[k], 0);
      assert heap == old(heap)[k := [Bucket(page, Rest(k))] + old(heap)[k]] by {
        assert h[k][0 := Bucket(page, Rest(k))] == [Bucket(page, Rest(k))] + old(heap)[k];
      }
      MallocKeeps(old(heap), k, page);
    }

    lemma ChainLengths()
      requires Chains()
      ensures forall k: nat | k < BUCKETS :: |lists[k]| == |heap[k]|
    {
    }

    /** The end of free_s when no block of the page is in use: the descriptor leaves its chain for the
        unused ones, and the page goes back. prev is its predecessor or NULL. */
    method ReleasePage(k: nat, d: nat, prev: int, ghost i: nat)
      requires Lists() && Chains() && k < BUCKETS && i < |heap[k]| && i < |lists[k]| && d == lists[k][i]
      requires prev == At(lists[k], i - 1)
      modifies `descs, `freeDesc, `pool, `heap, `lists, `owner, chain
      ensures Lists() && Chains()
      ensures heap == old(heap)[k := old(heap)[k][..i] + old(heap)[k][i + 1..]]
      ensures pool == old(pool) + {old(heap)[k][i].page}
    {
      hide Owned, Threaded, Describes, Size, PerPage;
      ghost var fs, ls, hs, heads, spare := descs, lists, heap, chain[..], freeDesc;
      assert forall l: nat | l < BUCKETS :: Linked(fs, heads[l], ls[l]) && ChainOk(fs, word[..], ls[l], hs[l], l);
      DescInChain(k, i);
      CutLinked(descs, chain[k], lists[k], i);
      if prev != NULL {
        descs := descs[prev := descs[prev].(next := descs[d].next)];
      } else {
        chain[k] := descs[d].next;
      }
      ghost var gs := descs;
      pool := pool + {descs[d].page};
      descs := descs[d := descs[d].(next := freeDesc)];
      freeDesc := d;
      PageRemoved(fs, descs, word[..], ls, hs, owner, k, i, heads, spare);
      owner := owner[d := SPARE];
      lists := ls[k := Cut(ls[k], i)][SPARE := [d] + ls[SPARE]];
      heap := hs[k := hs[k][..i] + hs[k][i + 1..]];
    }

    lemma DescInChain(k: nat, i: nat)
      requires Lists() && Chains() && k < BUCKETS && i < |heap[k]| && i < |lists[k]|
      ensures lists[k][i] < |descs| == |owner| && descs[lists[k][i]].page == heap[k][i].page
      ensures i > 0 ==> lists[k][i - 1] < |descs| && lists[k][i - 1] != lists[k][i]
    {
      assert ChainOk(descs, word[..], lists[k], heap[k], k);
      assert Describes(descs[lists[k][i]], heap[k][i], k);
    }

    /** free_s: the block is no longer in use, and its page goes back with its last block. size may be
        given to skip the smaller sizes. */
    method FreeS(addr: nat, size: nat, ghost k: nat, ghost i: nat, ghost slot: nat)
      requires Valid() && LiveAt(heap, k, i, slot) && addr == Address(heap[k][i].page, k, slot) && size <= Size(k)
      modifies `descs, `freeDesc, `pool, `heap, `lists, `owner, chain, word
      ensures Valid() && heap == Freed(old(heap), k, i, slot)
      ensures pool == if Used(heap, old(heap)[k][i].page) then old(pool) else old(pool) + {old(heap)[k][i].page}
    {
      hide Linked, Owned, Describes;
      ghost var h, b := heap, heap[k][i];
      assert ChainOk(descs, word[..], lists[k], h[k], k) && Threaded(word[..], b, k);
      InPage(b.page, k, slot);
      FreedInv(h, k, i, slot);
      FreedPages(h, k, i, slot);
      var l, d, prev := FindPage(addr / PAGE_SIZE, size, k, i);
      PutBlock(l, d, addr, i, slot);
      ChainLengths();
      RefcntIs(k, i);
      if descs[d].refcnt == 0 {
        ghost var full := heap;
        assert full[k][..i] == h[k][..i] && full[k][i + 1..] == h[k][i + 1..];
        ReleasePage(l, d, prev, i);
        assert heap == h[k := h[k][..i] + h[k][i + 1..]];
      }
    }

    lemma RefcntIs(k: nat, i: nat)
      requires Chains() && k < BUCKETS && i < |heap[k]| && i < |lists[k]|
      ensures lists[k][i] < |descs| && descs[lists[k][i]].refcnt == PerPage(k) - |heap[k][i].free|
    {
      assert ChainOk(descs, word[..], lists[k], heap[k], k);
      assert Describes(descs[lists[k][i]], heap[k][i], k);
    }

    /** The search of all chains for the page: it finds the one descriptor that has it. */
    method FindPage(page: nat, size: nat, ghost k: nat, ghost i: nat) returns (l: nat, d: nat, prev: int)
      requires Valid() && k < BUCKETS && i < |heap[k]| && heap[k][i].page == page && size <= Size(k)
      ensures l == k && i < |lists[k]| && d == lists[k][i] && prev == At(lists[k], i - 1)
    {
      l := 0;
      ChainLengths();
      while true
        invariant l <= k
        decreases k - l
      {
        if Size(l) >= size {
          var found;
          found, d, prev := FindInChain(page, l);
          if found {
            return;
          }
        }
        l := l + 1;
      }
    }

    method FindInChain(page: nat, l: nat) returns (found: bool, d: nat, prev: int)
      requires Valid() && l < BUCKETS
      ensures found <==> exists j: nat :: j < |heap[l]| && heap[l][j].page == page
      ensures found ==> exists j: nat ::
        j < |heap[l]| == |lists[l]| && heap[l][j].page == page && d == lists[l][j] && prev == At(lists[l], j - 1)
    {
      ghost var s, c := lists[l], heap[l];
      assert ChainOk(descs, word[..], s, c, l) && Linked(descs, chain[l], s);
      hide Threaded, Owned, Pages, Lists, Chains, Inv;
      var x := chain[l];
      ghost var j: nat := 0;
      prev, found, d := NULL, false, 0;
      while x != NULL
        invariant j <= |s| == |c| && x == At(s, j) && (x != NULL ==> 0 <= x < |descs|) && prev == At(s, j - 1)
        invariant forall m: nat | m < j :: c[m].page != page
        decreases |s| - j
      {
        assert Describes(descs[x], c[j], l) && LinkedAt(descs, s, j);
        if descs[x].page == page {
          assert c[j].page == page;
          return true, x, prev;
        }
        prev := x;
        x := descs[x].next;
        j := j + 1;
      }
    }

    lemma SpareHead()
      requires Lists() && freeDesc != NULL
      ensures lists[SPARE] != [] && freeDesc == lists[SPARE][0] && 0 <= freeDesc < |descs| == |owner|
    {
      PopLinked(descs, freeDesc, lists[SPARE]);
    }
  }

  lemma PageRemoved(fs: seq<Desc>, gs: seq<Desc>, ws: seq<int>, ls: seq<seq<nat>>, h: Heap, owner: seq<nat>,
      k: nat, i: nat,
      heads: seq<int>, spare: int)
    requires |ls| == BUCKETS + 1 && |h| == BUCKETS == |heads| && k < BUCKETS && Owned(fs, ls, owner)
    requires forall l: nat | l < BUCKETS :: Linked(fs, heads[l], ls[l]) && ChainOk(fs, ws, ls[l], h[l], l)
    requires Linked(fs, spare, ls[SPARE]) && i < |ls[k]| && i < |h[k]| && ls[k][i] < |fs|
    requires gs == Pushed(Unlinked(fs, ls[k], i), ls[k][i], spare)
    ensures var d := ls[k][i];
      var ns, nh := ls[k := Cut(ls[k], i)][SPARE := [d] + ls[SPARE]], h[k := h[k][..i] + h[k][i + 1..]];
      && (forall l: nat | l < BUCKETS ::
          Linked(gs, if l == k && i == 0 then fs[d].next else heads[l], ns[l]) && ChainOk(gs, ws, ns[l], nh[l], l))
      && Linked(gs, d, ns[SPARE]) && d < |owner| && Owned(gs, ns, owner[d := SPARE])
  {
    var d, ms := ls[k][i], Unlinked(fs, ls[k], i);
    CutLinked(fs, heads[k], ls[k], i);
    CutIs(ls[k], i);
    assert d in ls[k];
    NotIn(fs, ls, owner, d, k);
    NotIn(fs, ls, owner, d, SPARE);
    assert forall x: nat | x < |fs| :: ms[x].(next := 0) == fs[x].(next := 0) && (x !in ls[k] ==> ms[x] == fs[x]) by {
      if i > 0 { assert ls[k][i - 1] in ls[k]; }
    }
    forall l: nat | l < BUCKETS && l != k ensures Linked(gs, heads[l], ls[l]) && ChainOk(gs, ws, ls[l], h[l], l) {
      OthersStay(fs, ms, gs, ws, ls, h, owner, k, i, l, heads[l], spare);
    }
    LinkedFrame(ms, gs, if i == 0 then fs[d].next else heads[k], Cut(ls[k], i));
    ChainCut(fs, ws, ls[k], h[k], k, i);
    ChainFrame(fs, gs, ws, ws, Cut(ls[k], i), h[k][..i] + h[k][i + 1..], k);
    forall x: nat | x in ls[SPARE] && x < |fs| ensures ms[x] == fs[x] {
      NotIn(fs, ls, owner, x, SPARE);
      NotIn(fs, ls, owner, x, k);
    }
    LinkedFrame(fs, ms, spare, ls[SPARE]);
    PushLinked(ms, spare, ls[SPARE], d);
    OwnerMoves(fs, gs, ls, owner, d, k, Cut(ls[k], i), SPARE, [d] + ls[SPARE]);
  }

  lemma OthersStay(fs: seq<Desc>, ms: seq<Desc>, gs: seq<Desc>, ws: seq<int>, ls: seq<seq<nat>>, h: Heap,
      owner: seq<nat>,
      k: nat, i: nat, l: nat, head: int, spare: int)
    requires |ls| == BUCKETS + 1 && |h| == BUCKETS && k < BUCKETS && l < BUCKETS && l != k && Owned(fs, ls, owner)
    requires Linked(fs, head, ls[l]) && ChainOk(fs, ws, ls[l], h[l], l)
    requires i < |ls[k]| && ls[k][i] < |fs| && |ms| == |fs| && gs == Pushed(ms, ls[k][i], spare)
    requires forall x: nat | x < |fs| :: x !in ls[k] ==> ms[x] == fs[x]
    ensures Linked(gs, head, ls[l]) && ChainOk(gs, ws, ls[l], h[l], l)
  {
    assert ls[k][i] in ls[k];
    forall x: nat | x in ls[l] && x < |fs| ensures gs[x] == fs[x] {
      NotIn(fs, ls, owner, x, l);
      NotIn(fs, ls, owner, x, k);
    }
    LinkedFrame(fs, gs, head, ls[l]);
    ChainFrame(fs, gs, ws, ws, ls[l], h[l], l);
  }

  /** The pages in use after free_s. */
  lemma FreedPages(h: Heap, k: nat, i: nat, slot: nat)
    requires Inv(h) && LiveAt(h, k, i, slot)
    ensures forall p: nat :: Used(Freed(h, k, i, slot), p) ==> Used(h, p)
    ensures Used(Freed(h, k, i, slot), h[k][i].page) <==> |h[k][i].free| + 1 != PerPage(k)
  {
    var n: Heap := Freed(h, k, i, slot);
    var full := |h[k][i].free| + 1 == PerPage(k);
    forall p: nat | Used(n, p) ensures Used(h, p) && (full ==> p != h[k][i].page) {
      var l: nat, j: nat :| l < |n| && j < |n[l]| && n[l][j].page == p;
      assert h[l][if full && l == k && j >= i then j + 1 else j].page == p;
    }
    if !full { assert n[k][i].page == h[k][i].page; }
  }

  lemma TwoLeft(a: set<nat>, b: set<nat>)
    requires b < a && |a - b| == 1
    ensures |a| >= 2 <==> b != {}
  {
    if b == {} { assert a - b == a; } else { assert a == b + (a - b); }
  }

  /** The blocks of a new page after the first. */
  lemma AllButFirst(k: nat)
    requires k < BUCKETS
    ensures AllSlots(k) != [] && AllSlots(k)[0] == 0 && AllSlots(k)[1..] == Rest(k)
  {
    PageIsFull(k);
  }

  /** The pages in use after malloc, none of them still to be had. */
  lemma MallocKeeps(h: Heap, k: nat, page: nat)
    requires Inv(h) && k < BUCKETS && (Roomy(h[k]) < |h[k]| || (page > 0 && !Used(h, page)))
    ensures Inv(Malloc(h, k, page).h)
    ensures forall p: nat :: Used(Malloc(h, k, page).h, p) ==> Used(h, p) || (Roomy(h[k]) == |h[k]| && p == page)
  {
    if Roomy(h[k]) < |h[k]| {
      var other := FreshPage(h);
      assert Malloc(h, k, other) == Malloc(h, k, page);
      MallocInv(h, k, other);
      forall p: nat | Used(Malloc(h, k, page).h, p) ensures Used(h, p) { UsedBefore(h, k, page, p); }
    } else {
      MallocInv(h, k, page);
      forall p: nat | Used(Malloc(h, k, page).h, p) && p != page ensures Used(h, p) { UsedBefore(h, k, page, p); }
    }
  }

  lemma UsedBefore(h: Heap, k: nat, page: nat, p: nat)
    requires Inv(h) && k < BUCKETS && Used(Malloc(h, k, page).h, p) && (Roomy(h[k]) == |h[k]| ==> p != page)
    ensures Used(h, p)
  {
    var n: Heap := Malloc(h, k, page).h;
    var l: nat, i: nat :| l < |n| && i < |n[l]| && n[l][i].page == p;
    if Roomy(h[k]) == |h[k]| && l == k {
      assert h[k][i - 1] == n[k][i];
    } else {
      assert h[l][i].page == p;
    }
  }

  lemma NewDescribes(x: Desc, page: nat, k: nat)
    requires k < BUCKETS && x.page == page && x.size == Size(k) && x.refcnt == 0 && x.freeptr == page * PAGE_SIZE
    ensures Describes(x, Bucket(page, AllSlots(k)), k)
  {
    PageIsFull(k);
    Multiples(0, 1, Size(k));
  }

  function AllSlots(k: nat): seq<nat> {
    seq(if PerPage(k) > 0 then PerPage(k) else 0, i requires 0 <= i => i)
  }

  lemma UnitInPage(p: nat, k: nat, slot: nat)
    requires k < BUCKETS && slot < PerPage(k)
    ensures var u := Address(p, k, slot) / UNIT; u < (p + 1) * (PAGE_SIZE / UNIT) && u * UNIT / PAGE_SIZE == p
  {
    InPage(p, k, slot);
    Aligned(p, k, slot);
  }

  /** The next block is threaded, and those before it still are. */
  lemma OneThreaded(ws: seq<int>, vs: seq<int>, b: Bucket, k: nat, slot: nat)
    requires k < BUCKETS && b.free == AllSlots(k) && slot < PerPage(k) && Address(b.page, k, slot) / UNIT < |ws|
    requires var v := if slot + 1 < PerPage(k) then Address(b.page, k, slot) + Size(k) else 0;
      vs == ws[Address(b.page, k, slot) / UNIT := v]
    ensures ThreadedAt(vs, b, k, slot)
    ensures forall j: nat | j < slot && ThreadedAt(ws, b, k, j) :: ThreadedAt(vs, b, k, j)
  {
    Multiples(slot, slot + 1, Size(k));
    Aligned(b.page, k, slot);
    forall j: nat | j < slot && ThreadedAt(ws, b, k, j) ensures ThreadedAt(vs, b, k, j) {
      SlotsDiffer(b.page, k, slot, j);
      Aligned(b.page, k, j);
    }
  }

  lemma PageAdded(fs: seq<Desc>, gs: seq<Desc>, ws: seq<int>, vs: seq<int>, ls: seq<seq<nat>>, h: Heap, owner: seq<nat>,
      k: nat, d: nat, b: Bucket, heads: seq<int>)
    requires |ls| == BUCKETS + 1 && |h| == BUCKETS == |heads| && k < BUCKETS && Owned(fs, ls, owner) && Inv(h)
    requires forall l: nat | l < BUCKETS :: Linked(fs, heads[l], ls[l]) && ChainOk(fs, ws, ls[l], h[l], l)
    requires ls[SPARE] != [] && d == ls[SPARE][0] && Linked(fs, d, ls[SPARE])
    requires d < |fs| == |gs| && gs == fs[d := gs[d]] && gs[d].next == heads[k] && Describes(gs[d], b, k)
    requires Threaded(vs, b, k) && |vs| == |ws| && !Used(h, b.page)
    requires forall u: nat | u < |ws| && u * UNIT / PAGE_SIZE != b.page :: vs[u] == ws[u]
    ensures var ns, nh, nt := ls[SPARE := ls[SPARE][1..]][k := [d] + ls[k]], h[k := [b] + h[k]], heads[k := d];
      && (forall l: nat | l < BUCKETS :: Linked(gs, nt[l], ns[l]) && ChainOk(gs, vs, ns[l], nh[l], l))
      && Linked(gs, fs[d].next, ns[SPARE]) && d < |owner| && Owned(gs, ns, owner[d := k])
  {
    var spare := ls[SPARE];
    NotIn(fs, ls, owner, d, SPARE);
    PopLinked(fs, d, spare);
    LinkedFrame(fs, gs, fs[d].next, spare[1..]);
    forall l: nat | l < BUCKETS ensures Linked(gs, heads[l], ls[l]) && ChainOk(gs, vs, ls[l], h[l], l) && d !in ls[l] {
      NotIn(fs, ls, owner, d, l);
      LinkedFrame(fs, gs, heads[l], ls[l]);
      forall i: nat | i < |h[l]| && Threaded(ws, h[l][i], l) ensures Threaded(vs, h[l][i], l) {
        assert BucketOk(h[l][i], l) && h[l][i].page != b.page;
        ThreadedFrame(ws, vs, h[l][i], l);
      }
      ChainFrame(fs, gs, ws, vs, ls[l], h[l], l);
    }
    PushLinked(gs, heads[k], ls[k], d);
    assert Pushed(gs, d, heads[k]) == gs;
    ChainPush(gs, vs, ls[k], h[k], k, d, b);
    assert forall x: nat :: x in spare[1..] <==> x in spare && x != d by { assert spare == [d] + spare[1..]; }
    OwnerMoves(fs, gs, ls, owner, d, SPARE, spare[1..], k, [d] + ls[k]);
  }

  lemma EmptyList(descs: seq<Desc>, list: seq<nat>)
    requires Linked(descs, NULL, list)
    ensures list == []
  {
  }

  /** The descriptors of one page, from the first on. */
  function Spares(first: nat): seq<nat> {
    seq(DESCS_PER_PAGE, i requires i >= 0 => first + i)
  }

  lemma SparesAre(first: nat)
    ensures forall d: nat :: d in Spares(first) <==> first <= d < first + DESCS_PER_PAGE
  {
    var s := Spares(first);
    forall d: nat | first <= d < first + DESCS_PER_PAGE ensures d in s { assert s[d - first] == d; }
  }

  lemma SparesLinked(descs: seq<Desc>, first: nat)
    requires |descs| == first + DESCS_PER_PAGE && descs[|descs| - 1].next == NULL
    requires forall j: nat | first <= j < |descs| - 1 :: descs[j].next == j + 1
    ensures Linked(descs, first, Spares(first))
  {
    forall i: nat | i < DESCS_PER_PAGE ensures LinkedAt(descs, Spares(first), i) {}
  }

  function WithBucket(h: Heap, k: nat, i: nat, b: Bucket): (n: Heap)
    ensures |n| == |h|
  {
    if k < |h| && i < |h[k]| then h[k := h[k][i := b]] else h
  }

  lemma FreeptrTells(d: Desc, b: Bucket, k: nat)
    requires Describes(d, b, k) && b.page > 0
    ensures d.freeptr == 0 <==> b.free == []
  {
    if b.free != [] { Multiples(0, b.free[0], Size(k)); }
  }

  // ---------------------------------------------------------------- list operations

  /** Nothing but next matters to the links. */
  lemma LinkedFrame(descs: seq<Desc>, fs: seq<Desc>, head: int, list: seq<nat>)
    requires Linked(descs, head, list)
    requires forall d: nat | d in list && d < |descs| :: d < |fs| && fs[d].next == descs[d].next
    ensures Linked(fs, head, list)
  {
    forall i: nat | i < |list| ensures LinkedAt(fs, list, i) {
      assert LinkedAt(descs, list, i) && list[i] in list;
    }
  }

  function Pushed(descs: seq<Desc>, d: nat, head: int): seq<Desc> {
    if d < |descs| then descs[d := descs[d].(next := head)] else descs
  }

  lemma PushLinked(descs: seq<Desc>, head: int, list: seq<nat>, d: nat)
    requires Linked(descs, head, list) && d < |descs| && d !in list
    ensures Linked(Pushed(descs, d, head), d, [d] + list)
  {
    var n := [d] + list;
    forall i: nat | i < |n| ensures LinkedAt(Pushed(descs, d, head), n, i) {
      if i > 0 { assert LinkedAt(descs, list, i - 1) && list[i - 1] in list; }
    }
  }

  lemma PopLinked(descs: seq<Desc>, head: int, list: seq<nat>)
    requires Linked(descs, head, list) && list != []
    ensures list[0] < |descs| && Linked(descs, descs[list[0]].next, list[1..])
  {
    assert LinkedAt(descs, list, 0);
    forall i: nat | i < |list| - 1 ensures LinkedAt(descs, list[1..], i) { assert LinkedAt(descs, list, i + 1); }
  }

  /** The descriptors after the i-th of a list has been taken out. */
  function Unlinked(descs: seq<Desc>, list: seq<nat>, i: nat): seq<Desc> {
    if 0 < i < |list| && list[i - 1] < |descs| && list[i] < |descs| then
      descs[list[i - 1] := descs[list[i - 1]].(next := descs[list[i]].next)]
    else descs
  }

  lemma CutLinked(descs: seq<Desc>, head: int, list: seq<nat>, i: nat)
    requires Linked(descs, head, list) && i < |list|
    ensures list[i] < |descs|
    ensures Linked(Unlinked(descs, list, i), if i == 0 then descs[list[0]].next else head, Cut(list, i))
  {
    var fs, n := Unlinked(descs, list, i), Cut(list, i);
    CutIs(list, i);
    assert LinkedAt(descs, list, i);
    forall j: nat | j < |n| ensures LinkedAt(fs, n, j) {
      var m := if j < i then j else j + 1;
      assert LinkedAt(descs, list, m);
      if i > 0 { assert LinkedAt(descs, list, i - 1); }
    }
  }

  /** A descriptor goes from one list to another. */
  lemma OwnerMoves(descs: seq<Desc>, fs: seq<Desc>, lists: seq<seq<nat>>, owner: seq<nat>, d: nat, l: nat,
      from: seq<nat>, m: nat, to: seq<nat>)
    requires Owned(descs, lists, owner) && |fs| == |descs| && d < |descs| && l <= SPARE && m <= SPARE && l != m
    requires owner[d] == l
    requires forall x: nat :: x in from <==> x in lists[l] && x != d
    requires forall x: nat :: x in to <==> x in lists[m] || x == d
    ensures Owned(fs, lists[l := from][m := to], owner[d := m])
  {
    var ns, os := lists[l := from][m := to], owner[d := m];
    forall j: nat | j <= SPARE ensures OwnedList(fs, ns[j], os, j) {
      assert OwnedList(descs, lists[j], owner, j);
    }
  }

  lemma NotIn(descs: seq<Desc>, lists: seq<seq<nat>>, owner: seq<nat>, d: nat, l: nat)
    requires Owned(descs, lists, owner) && d < |descs| && l <= SPARE
    ensures d in lists[l] <==> owner[d] == l
  {
    assert OwnedList(descs, lists[l], owner, l);
  }

  // ---------------------------------------------------------------- chains under change

  /** A change of other descriptors, of links, and of words in other places does not matter. */
  lemma ChainFrame(descs: seq<Desc>, fs: seq<Desc>, word: seq<int>, gs: seq<int>, list: seq<nat>,
      chain: seq<Bucket>, k: nat)
    requires ChainOk(descs, word, list, chain, k)
    requires forall d: nat | d in list && d < |descs| :: d < |fs| && fs[d].(next := 0) == descs[d].(next := 0)
    requires forall i: nat | i < |chain| && Threaded(word, chain[i], k) :: Threaded(gs, chain[i], k)
    ensures ChainOk(fs, gs, list, chain, k)
  {
    forall i: nat | i < |list| ensures list[i] < |fs| && Describes(fs[list[i]], chain[i], k) {
      assert list[i] in list && Describes(descs[list[i]], chain[i], k);
      assert fs[list[i]].(next := 0) == descs[list[i]].(next := 0);
      assert fs[list[i]].page == fs[list[i]].(next := 0).page && fs[list[i]].size == fs[list[i]].(next := 0).size;
      var f := fs[list[i]];
      assert f.freeptr == f.(next := 0).freeptr && f.refcnt == f.(next := 0).refcnt;
    }
  }

  lemma ThreadedFrame(word: seq<int>, gs: seq<int>, b: Bucket, k: nat)
    requires Threaded(word, b, k) && |gs| == |word| && k < BUCKETS
    requires forall i: nat | i < |b.free| :: b.free[i] < PerPage(k)
    requires forall u: nat | u < |word| && u * UNIT / PAGE_SIZE == b.page :: gs[u] == word[u]
    ensures Threaded(gs, b, k)
  {
    forall i: nat | i < |b.free| ensures ThreadedAt(gs, b, k, i) {
      assert ThreadedAt(word, b, k, i);
      InPage(b.page, k, b.free[i]);
      Aligned(b.page, k, b.free[i]);
    }
  }

  lemma Aligned(page: nat, k: nat, slot: nat)
    requires k < BUCKETS
    ensures Address(page, k, slot) % UNIT == 0 && Address(page, k, slot) / UNIT * UNIT == Address(page, k, slot)
  {
    PageIsFull(k);
    var z := Size(k) / UNIT;
    assert slot * Size(k) == slot * (z * UNIT) == (slot * z) * UNIT;
  }

  lemma ChainUpdate(descs: seq<Desc>, word: seq<int>, now: seq<int>, list: seq<nat>, chain: seq<Bucket>, k: nat,
      i: nat, d: Desc, b: Bucket)
    requires ChainOk(descs, word, list, chain, k) && Distinct(list) && i < |list|
    requires Describes(d, b, k) && Threaded(now, b, k)
    requires forall j: nat | j < |chain| && j != i :: Threaded(now, chain[j], k)
    ensures list[i] < |descs| && ChainOk(descs[list[i] := d], now, list, chain[i := b], k)
  {
    forall j: nat | j < |list|
      ensures list[j] < |descs| && Describes(descs[list[i] := d][list[j]], chain[i := b][j], k)
      ensures Threaded(now, chain[i := b][j], k)
    {
      assert Describes(descs[list[j]], chain[j], k);
    }
  }

  lemma ChainPush(descs: seq<Desc>, word: seq<int>, list: seq<nat>, chain: seq<Bucket>, k: nat, d: nat, b: Bucket)
    requires ChainOk(descs, word, list, chain, k) && d < |descs| && Describes(descs[d], b, k) && Threaded(word, b, k)
    ensures ChainOk(descs, word, [d] + list, [b] + chain, k)
  {
    var l, c := [d] + list, [b] + chain;
    forall j: nat | j < |l| ensures l[j] < |descs| && Describes(descs[l[j]], c[j], k) && Threaded(word, c[j], k) {
      if j > 0 { assert Describes(descs[list[j - 1]], chain[j - 1], k) && Threaded(word, chain[j - 1], k); }
    }
  }

  lemma ChainCut(descs: seq<Desc>, word: seq<int>, list: seq<nat>, chain: seq<Bucket>, k: nat, i: nat)
    requires ChainOk(descs, word, list, chain, k) && i < |list|
    ensures ChainOk(descs, word, Cut(list, i), chain[..i] + chain[i + 1..], k)
  {
    var l, c := Cut(list, i), chain[..i] + chain[i + 1..];
    forall j: nat | j < |l| ensures l[j] < |descs| && Describes(descs[l[j]], c[j], k) && Threaded(word, c[j], k) {
      var m := if j < i then j else j + 1;
      assert Describes(descs[list[m]], chain[m], k) && Threaded(word, chain[m], k);
    }
  }

  /** The first free block is taken. */
  lemma TakeFirst(word: seq<int>, d: Desc, b: Bucket, k: nat)
    requires Describes(d, b, k) && Threaded(word, b, k) && b.free != []
    ensures var u := d.freeptr / UNIT; var c := b.(free := b.free[1..]);
      && 0 <= u < |word|
      && Describes(d.(freeptr := word[u], refcnt := d.refcnt + 1), c, k) && Threaded(word, c, k)
  {
    var c := b.(free := b.free[1..]);
    assert ThreadedAt(word, b, k, 0);
    forall i: nat | i < |c.free| ensures ThreadedAt(word, c, k, i) {
      assert ThreadedAt(word, b, k, i + 1);
    }
  }

  /** A block becomes the first free one. */
  lemma PutFirst(word: seq<int>, d: Desc, b: Bucket, k: nat, slot: nat)
    requires Describes(d, b, k) && Threaded(word, b, k) && k < BUCKETS && slot < PerPage(k) && slot !in b.free
    requires forall i: nat | i < |b.free| :: b.free[i] < PerPage(k)
    ensures var a := Address(b.page, k, slot); var c := b.(free := [slot] + b.free);
      && a / UNIT < |word|
      && Describes(d.(freeptr := a, refcnt := d.refcnt - 1), c, k) && Threaded(word[a / UNIT := d.freeptr], c, k)
  {
    var a, c := Address(b.page, k, slot), b.(free := [slot] + b.free);
    var gs;
    InPage(b.page, k, slot);
    Aligned(b.page, k, slot);
    assert a / UNIT < (b.page + 1) * (PAGE_SIZE / UNIT);
    gs := word[a / UNIT := d.freeptr];
    forall i: nat | i < |c.free| ensures ThreadedAt(gs, c, k, i) {
      if i > 0 {
        assert ThreadedAt(word, b, k, i - 1) && b.free[i - 1] in b.free;
        Aligned(b.page, k, b.free[i - 1]);
        SlotsDiffer(b.page, k, slot, b.free[i - 1]);
      }
    }
  }

  lemma SlotsDiffer(page: nat, k: nat, s: nat, t: nat)
    requires s != t
    ensures Address(page, k, s) != Address(page, k, t)
  {
    if s < t { SlotsApart(k, s, t); } else { SlotsApart(k, t, s); }
  }

  /** A word of one page is not in the free list of another. */
  lemma OtherPage(word: seq<int>, u: nat, v: int, page: nat, b: Bucket, k: nat)
    requires Threaded(word, b, k) && k < BUCKETS && u < |word| && u * UNIT / PAGE_SIZE == page && b.page != page
    requires forall i: nat | i < |b.free| :: b.free[i] < PerPage(k)
    ensures Threaded(word[u := v], b, k)
  {
    ThreadedFrame(word, word[u := v], b, k);
  }

  /** Whoever was handed a block may write anything into it: no free list goes through it. */
  lemma BlockIsPrivate(word: seq<int>, h: Heap, k: nat, i: nat, slot: nat, u: nat, v: int, l: nat, j: nat)
    requires Inv(h) && LiveAt(h, k, i, slot) && u < |word|
    requires Address(h[k][i].page, k, slot) <= u * UNIT < Address(h[k][i].page, k, slot) + Size(k)
    requires l < BUCKETS && j < |h[l]| && Threaded(word, h[l][j], l)
    ensures Threaded(word[u := v], h[l][j], l)
  {
    var b, vs := h[l][j], word[u := v];
    assert BucketOk(b, l);
    InPage(h[k][i].page, k, slot);
    forall m: nat | m < |b.free| ensures ThreadedAt(vs, b, l, m) {
      var s := b.free[m];
      assert ThreadedAt(word, b, l, m) && s in b.free;
      InPage(b.page, l, s);
      Aligned(b.page, l, s);
      if b.page == h[k][i].page {
        if s < slot { SlotsApart(l, s, slot); } else { SlotsApart(l, slot, s); }
      }
    }
  }
}
