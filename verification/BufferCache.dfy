// The buffer heads, the hash table and the list of free buffers of fs/buffer.c, against the steps of
// CacheSpec.

module BufferCache {
  import opened CacheSpec
  import opened BufferLists
  import opened Sequences

  const NR_HASH: nat := 307

  function HashFn(key: Key): (h: nat)
    ensures h < NR_HASH
  {
    (((key.0 % 0x1_0000_0000) as bv32) ^ ((key.1 % 0x1_0000_0000) as bv32)) as nat % NR_HASH
  }

  /** dirty counts more than locked. */
  function Badness(b: Buf): nat {
    (if b.dirty then 2 else 0) + if b.lock != Free then 1 else 0
  }

  /** Chain h holds exactly the buffers for blocks with this hash value, but for one. */
  ghost predicate Filed(bufs: seq<Buf>, s: seq<nat>, h: nat, but: int) {
    forall b: nat :: b in s <==> b < |bufs| && b != but && bufs[b].dev != 0 && HashFn(bufs[b].Id()) == h
  }

  ghost predicate AllFiled(bufs: seq<Buf>, chains: seq<seq<nat>>, but: int) {
    |chains| == NR_HASH && forall h: nat | h < NR_HASH :: Filed(bufs, chains[h], h, but)
  }

  ghost predicate AllChained(ls: seq<Links>, table: seq<int>, chains: seq<seq<nat>>) {
    |table| == |chains| == NR_HASH && forall h: nat | h < NR_HASH :: ChainOk(ls, table[h], chains[h])
  }

  /** Buffers for no block are linked to no chain. */
  ghost predicate Loose(ls: seq<Links>, bufs: seq<Buf>, but: int) {
    |ls| == |bufs| && forall b: nat | b < |bufs| && b != but && bufs[b].dev == 0 ::
      ls[b].prev == NULL && ls[b].next == NULL
  }

  ghost predicate Everyone(ring: seq<nat>, n: nat) {
    forall b: nat :: b in ring <==> b < n
  }

  datatype Taken = Retry | Sync | Got

  class Buffers {
    const buf: array<Buf>
    const link: array<Links>
    const hashTable: array<int>
    var freeList: int
    ghost var ring: seq<nat>
    ghost var chains: seq<seq<nat>>

    /** The circular list goes through every buffer once, and the hash chains through those for a block. */
    ghost predicate Valid()
      reads this, buf, link, hashTable
    {
      && link.Length == buf.Length
      && RingOk(link[..], ring) && freeList == ring[0] && Everyone(ring, buf.Length)
      && AllChained(link[..], hashTable[..], chains)
      && AllFiled(buf[..], chains, NULL) && Loose(link[..], buf[..], NULL)
    }

    /** buffer_init, for n buffers. */
    constructor (n: nat)
      requires n > 0
      ensures Valid() && fresh(buf) && fresh(link) && fresh(hashTable) && buf.Length == n
      ensures forall b: nat | b < n :: buf[b] == Buf(0, 0, false, false, Lock.Free, 0, [])
    {
      buf := new Buf[n](i => Buf(0, 0, false, false, Lock.Free, 0, []));
      link := new Links[n](i => Links(NULL, NULL, (i as int) - 1, i + 1));
      hashTable := new int[NR_HASH](i => NULL);
      freeList := 0;
      ring := seq(n, i => i);
      chains := seq(NR_HASH, i => []);
      new;
      hide HashFn;
      link[0] := link[0].(prevFree := n - 1);
      link[n - 1] := link[n - 1].(nextFree := 0);
      forall i: nat | i < n ensures Ringed(link[..], ring, i) {}
      assert forall b: nat | b < n :: ring[b] == b;
      forall b: nat ensures b in ring <==> b < n {
        if b < n { assert ring[b] == b; }
      }
    }

    /** find_buffer: the buffer for the block, if there is one. */
    method FindBuffer(key: Key) returns (b: int)
      requires Valid() && key.0 != 0
      ensures b == NULL <==> !InCache(buf[..], key)
      ensures b != NULL ==> 0 <= b < buf.Length && buf[b].Id() == key
    {
      hide HashFn;
      ghost var s := chains[HashFn(key)];
      assert ChainOk(link[..], hashTable[..][HashFn(key)], s) && Filed(buf[..], s, HashFn(key), NULL);
      b := hashTable[HashFn(key)];
      ghost var i: nat := 0;
      while b != NULL
        invariant i <= |s| && b == At(s, i)
        invariant forall j: nat | j < i :: s[j] < buf.Length && buf[..][s[j]].Id() != key
        decreases |s| - i
      {
        assert Hung(link[..], s, i);
        if buf[b].Id() == key {
          return;
        }
        b := link[b].next;
        i := i + 1;
      }
      NotFiled(buf[..], s, key);
    }

    /** get_hash_table up to the wait: the buffer found is counted as in use. */
    method StartGet(key: Key, ghost c: Cache, ghost p: nat) returns (b: int)
      requires Valid() && c.bufs == buf[..] && p < |c.procs| && c.procs[p].pc == Find(key) && key.0 != 0
      modifies buf
      ensures b == NULL <==> !InCache(old(buf[..]), key)
      ensures b == NULL ==> buf[..] == old(buf[..])
      ensures b != NULL ==> 0 <= b && Enabled(c, Found(p, b)) && buf[..] == Next(c, Found(p, b)).bufs
      ensures Valid()
    {
      b := FindBuffer(key);
      if b != NULL {
        buf[b] := buf[b].(count := buf[b].count + 1);
        SameIds(old(buf[..]), buf[..], chains, NULL);
      }
    }

    /** The rest of get_hash_table, when the buffer is unlocked. It is never for another block. */
    method FinishGet(b: nat, key: Key, ghost c: Cache, ghost p: nat) returns (found: bool)
      requires Valid() && c.bufs == buf[..] && Enabled(c, GotHash(p)) && c.procs[p].pc == WaitHash(key, b)
      modifies buf
      ensures Valid() && buf[..] == Next(c, GotHash(p)).bufs
      ensures found == (Next(c, GotHash(p)).procs[p].pc == Idle)
      ensures CacheSpec.Inv(c) ==> found && buf[b].Id() == key
    {
      assert CacheSpec.Inv(c) ==> Waiting(c.procs[p], c.bufs);
      found := buf[b].dev == key.0 && buf[b].block == key.1;
      if !found {
        buf[b] := buf[b].(count := buf[b].count - 1);
        SameIds(c.bufs, buf[..], chains, NULL);
      }
    }

    /** brelse, when the buffer is unlocked. */
    method Brelse(b: nat, ghost c: Cache, ghost p: nat) returns (panic: bool)
      requires Valid() && c.bufs == buf[..] && CacheSpec.Inv(c) && Enabled(c, Release(p, b))
      modifies buf
      ensures Valid() && buf[..] == Next(c, Release(p, b)).bufs
      ensures !panic
    {
      NeverReleasedFree(c, p, b);
      panic := buf[b].count == 0;
      buf[b] := buf[b].(count := buf[b].count - 1);
      SameIds(c.bufs, buf[..], chains, NULL);
    }

    /** The search of getblk for a buffer to take: the first of the circular list among the best that nobody
        uses. NULL if all are in use. */
    method ChooseFree() returns (best: int)
      requires Valid()
      ensures best == NULL <==> forall b: nat | b < buf.Length :: buf[b].count != 0
      ensures best != NULL ==> 0 <= best < buf.Length && FirstBest(buf[..], ring, best)
    {
      best := NULL;
      var tmp := freeList;
      ghost var i: nat, k: nat := 0, 0;
      while true
        invariant i < |ring| && tmp == ring[i]
        invariant BestOf(buf[..], ring, i, best, k)
        decreases |ring| - i
      {
        assert Ringed(link[..], ring, i);
        if buf[tmp].count == 0 && (best == NULL || Badness(buf[tmp]) < Badness(buf[best])) {
          best := tmp;
          k := i;
          if Badness(buf[tmp]) == 0 {
            BestOfAll(buf[..], ring, i + 1, best, k);
            break;
          }
        }
        tmp := link[tmp].nextFree;
        i := i + 1;
        if tmp == freeList {
          assert i == |ring|;
          BestOfAll(buf[..], ring, i, best, k);
          break;
        }
      }
    }

    /** remove_from_queues, the hash chain. */
    method Unhook(b: nat)
      requires b < buf.Length == link.Length && hashTable.Length == NR_HASH
      requires NULL <= link[b].next < link.Length && NULL <= link[b].prev < link.Length
      modifies link, hashTable
      ensures link[..] == Unhash(old(link[..]), b)
      ensures hashTable[..] == Unheaded(old(hashTable[..]), HashFn(buf[b].Id()), b, Unhash(old(link[..]), b)[b].next)
    {
      hide HashFn;
      var h := HashFn(buf[b].Id());
      if link[b].next != NULL {
        link[link[b].next] := link[link[b].next].(prev := link[b].prev);
      }
      if link[b].prev != NULL {
        link[link[b].prev] := link[link[b].prev].(next := link[b].next);
      }
      if hashTable[h] == b {
        hashTable[h] := link[b].next;
      }
    }

    /** remove_from_queues, the circular list. */
    method Unlink(b: nat)
      requires b < link.Length && 0 <= link[b].prevFree < link.Length && 0 <= link[b].nextFree < link.Length
      modifies link, this`freeList
      ensures link[..] == Unring(old(link[..]), b)
      ensures freeList == if old(freeList) == b then Unring(old(link[..]), b)[b].nextFree else old(freeList)
    {
      var p, n := link[b].prevFree, link[b].nextFree;
      link[p] := link[p].(nextFree := n);
      link[n] := link[n].(prevFree := p);
      if freeList == b {
        freeList := link[b].nextFree;
      }
    }

    /** insert_into_queues, the circular list. */
    method Relink(b: nat)
      requires b < link.Length && 0 <= freeList < link.Length && 0 <= link[freeList].prevFree < link.Length
      modifies link
      ensures link[..] == Enring(old(link[..]), b, freeList)
    {
      link[b] := link[b].(nextFree := freeList);
      link[b] := link[b].(prevFree := link[freeList].prevFree);
      link[link[freeList].prevFree] := link[link[freeList].prevFree].(nextFree := b);
      link[freeList] := link[freeList].(prevFree := b);
    }

    /** insert_into_queues, the hash chain. */
    method Rehook(b: nat)
      requires b < buf.Length == link.Length && hashTable.Length == NR_HASH && buf[b].dev != 0
      requires NULL <= hashTable[HashFn(buf[b].Id())] < link.Length && hashTable[HashFn(buf[b].Id())] != b
      modifies link, hashTable
      ensures link[..] == Enhash(old(link[..]), b, old(hashTable[HashFn(buf[b].Id())]))
      ensures hashTable[..] == old(hashTable[..])[HashFn(buf[b].Id()) := b]
    {
      hide HashFn;
      var h := HashFn(buf[b].Id());
      link[b] := link[b].(prev := NULL);
      link[b] := link[b].(next := NULL);
      link[b] := link[b].(next := hashTable[h]);
      hashTable[h] := b;
      if link[b].next != NULL {
        link[link[b].next] := link[link[b].next].(prev := b);
      }
    }

    /** The end of getblk, when the buffer chosen is unlocked: start again if somebody uses it or has
        brought in the block, write it out if it is dirty, else take it. It becomes the last of the
        circular list. */
    method TakeBuffer(b: nat, key: Key, ghost c: Cache, ghost p: nat) returns (r: Taken)
      requires Valid() && c.bufs == buf[..] && Enabled(c, Take(p)) && c.procs[p].pc == WaitFree(key, b) && key.0 != 0
      modifies this, buf, link, hashTable
      ensures Valid() && buf[..] == Next(c, Take(p)).bufs
      ensures r == Got <==> Next(c, Take(p)).procs[p].pc == Idle
      ensures r == Retry <==> Next(c, Take(p)).procs[p].pc == Find(key)
      ensures r != Got ==> ring == old(ring)
      ensures r == Got ==> b in old(ring) && ring == MovedLast(old(ring), b)
    {
      if buf[b].count != 0 {
        return Retry;
      }
      if buf[b].dirty {
        return Sync;
      }
      var f := FindBuffer(key);
      if f != NULL {
        return Retry;
      }
      Reuse(b, key);
      r := Got;
    }

    /** Between the two: b is in no chain, and not in the circular list unless it is alone in it. */
    ghost predicate Removed(b: nat)
      reads this, buf, link, hashTable
    {
      && link.Length == buf.Length > b
      && RingOk(link[..], ring) && freeList == ring[0]
      && (b in ring ==> ring == [b]) && Everyone(Entered(ring, b), buf.Length)
      && AllChained(link[..], hashTable[..], chains) && AllFiled(buf[..], chains, b) && Loose(link[..], buf[..], b)
    }

    method RemoveFromQueues(b: nat)
      requires Valid() && b < buf.Length
      modifies this, link, hashTable
      ensures b in old(ring) && Removed(b) && ring == Left(old(ring), b)
    {
      hide HashFn;
      UnhookChains(link[..], hashTable[..], buf[..], chains, b);
      RingFrame(link[..], Unhash(link[..], b), ring);
      RingLeave(Unhash(link[..], b), ring, b);
      RingKeepsChains(Unhash(link[..], b), b);
      Unhook(b);
      chains := ChainsWithout(chains, HashFn(buf[b].Id()), b);
      AllChainedFrame(link[..], Unring(link[..], b), hashTable[..], chains);
      Unlink(b);
      ring := Left(ring, b);
    }

    method InsertIntoQueues(b: nat)
      requires Removed(b) && buf[b].dev != 0
      modifies this, link, hashTable
      ensures Valid() && ring == Entered(old(ring), b)
    {
      hide HashFn, Entered, Enring, Enhash, ChainsWith, AllChained, AllFiled, Loose, Ringed, InRange, Everyone;
      RingEnter(link[..], ring, b);
      AllChainedFrame(link[..], Enring(link[..], b, freeList), hashTable[..], chains);
      LooseFrame(link[..], Enring(link[..], b, freeList), buf[..], b);
      Relink(b);
      ring := Entered(ring, b);
      RehookChains(link[..], hashTable[..], buf[..], chains, b);
      RingFrame(link[..], Enhash(link[..], b, hashTable[..][HashFn(buf[b].Id())]), ring);
      Rehook(b);
      chains := ChainsWith(chains, HashFn(buf[b].Id()), b);
    }

    /** The buffer is taken for the block. */
    method Reuse(b: nat, key: Key)
      requires Valid() && b < buf.Length && key.0 != 0
      modifies this, buf, link, hashTable
      ensures Valid() && buf[..] == old(buf[..])[b := Reused(old(buf[b]), key)]
      ensures b in old(ring) && ring == MovedLast(old(ring), b)
    {
      hide HashFn, Entered, RingOk, AllChained, AllFiled, Everyone, Left;
      ghost var bs := buf[..];
      buf[b] := buf[b].(count := 1);
      buf[b] := buf[b].(dirty := false);
      buf[b] := buf[b].(uptodate := false);
      SameIds(bs, buf[..], chains, NULL);
      RemoveFromQueues(b);
      ghost var cs := buf[..];
      buf[b] := buf[b].(dev := key.0);
      buf[b] := buf[b].(block := key.1);
      SameIds(cs, buf[..], chains, b);
      InsertIntoQueues(b);
    }
  }

  function Left(ring: seq<nat>, b: nat): seq<nat>
    requires b in ring
  {
    if |ring| == 1 then ring else Cut(ring, IndexOf(ring, b))
  }

  function Entered(ring: seq<nat>, b: nat): seq<nat> {
    if b in ring then ring else ring + [b]
  }

  /** The circular list with b at its end. */
  function MovedLast(ring: seq<nat>, b: nat): seq<nat>
    requires b in ring
  {
    Entered(Left(ring, b), b)
  }

  lemma RingLeave(ls: seq<Links>, ring: seq<nat>, b: nat)
    requires RingOk(ls, ring) && b in ring
    ensures b < |ls| && 0 <= ls[b].prevFree < |ls| && 0 <= ls[b].nextFree < |ls|
    ensures var ms, n := Unring(ls, b), Left(ring, b);
      && RingOk(ms, n) && n[0] == (if ring[0] == b then ms[b].nextFree else ring[0])
      && (b in n ==> n == [b]) && (forall x: nat :: x in Entered(n, b) <==> x in ring)
  {
    var i := IndexOf(ring, b);
    assert Ringed(ls, ring, i);
    if |ring| == 1 {
      assert ring == [b];
      RingOfOne(ls, b);
    } else {
      RingRemove(ls, ring, i);
      CutIs(ring, i);
      assert ring[0] == b ==> i == 0;
      assert Unring(ls, b)[b].nextFree == ls[b].nextFree;
      if i == 0 { assert Ringed(ls, ring, 0); }
    }
  }

  lemma RingEnter(ls: seq<Links>, ring: seq<nat>, b: nat)
    requires RingOk(ls, ring) && b < |ls| && (b in ring ==> ring == [b])
    ensures 0 <= ring[0] < |ls| && 0 <= ls[ring[0]].prevFree < |ls|
    ensures var ms := Enring(ls, b, ring[0]);
      && RingOk(ms, Entered(ring, b)) && Entered(ring, b)[0] == ring[0]
      && (forall x: nat | x < |ls| :: ms[x].prev == ls[x].prev && ms[x].next == ls[x].next)
  {
    assert Ringed(ls, ring, 0);
    if b in ring { RingOfOne(ls, b); } else { RingAppend(ls, ring, b); }
  }

  /** Leaving the circular list does not touch the links of the chains. */
  lemma RingKeepsChains(ls: seq<Links>, b: nat)
    ensures forall x: nat | x < |ls| :: Unring(ls, b)[x].prev == ls[x].prev && Unring(ls, b)[x].next == ls[x].next
  {
  }

  lemma AllChainedFrame(ls: seq<Links>, ms: seq<Links>, table: seq<int>, chains: seq<seq<nat>>)
    requires AllChained(ls, table, chains) && |ms| == |ls|
    requires forall x: nat | x < |ls| :: ms[x].prev == ls[x].prev && ms[x].next == ls[x].next
    ensures AllChained(ms, table, chains)
  {
    forall h: nat | h < NR_HASH ensures ChainOk(ms, table[h], chains[h]) {
      ChainFrame(ls, ms, table[h], chains[h]);
    }
  }

  lemma LooseFrame(ls: seq<Links>, ms: seq<Links>, bufs: seq<Buf>, but: int)
    requires Loose(ls, bufs, but) && |ms| == |ls|
    requires forall x: nat | x < |ls| :: ms[x].prev == ls[x].prev && ms[x].next == ls[x].next
    ensures Loose(ms, bufs, but)
  {
  }

  function ChainsWith(chains: seq<seq<nat>>, h: nat, b: nat): seq<seq<nat>> {
    if h < |chains| then chains[h := [b] + chains[h]] else chains
  }

  lemma RehookChains(ls: seq<Links>, table: seq<int>, bufs: seq<Buf>, chains: seq<seq<nat>>, b: nat)
    requires AllChained(ls, table, chains) && AllFiled(bufs, chains, b) && Loose(ls, bufs, b)
    requires b < |bufs| && bufs[b].dev != 0
    ensures var h := HashFn(bufs[b].Id()); var ms := Enhash(ls, b, table[h]);
      && NULL <= table[h] < |ls| && table[h] != b
      && AllChained(ms, table[h := b], ChainsWith(chains, h, b))
      && AllFiled(bufs, ChainsWith(chains, h, b), NULL) && Loose(ms, bufs, NULL)
      && (forall x: nat | x < |ls| :: ms[x].prevFree == ls[x].prevFree && ms[x].nextFree == ls[x].nextFree)
  {
    hide HashFn;
    var h := HashFn(bufs[b].Id());
    var s, ms := chains[h], Enhash(ls, b, table[h]);
    assert Filed(bufs, s, h, b) && ChainOk(ls, table[h], s);
    if s != [] { assert s[0] in s; }
    assert b !in s;
    ChainPush(ls, s, b);
    assert Filed(bufs, [b] + s, h, NULL);
    forall g: nat | g < NR_HASH && g != h ensures ChainOk(ms, table[g], chains[g]) && Filed(bufs, chains[g], g, NULL) {
      assert Filed(bufs, chains[g], g, b) && ChainOk(ls, table[g], chains[g]);
      ChainFrame(ls, ms, table[g], chains[g]);
    }
  }

  lemma NotFiled(bufs: seq<Buf>, s: seq<nat>, key: Key)
    requires Filed(bufs, s, HashFn(key), NULL) && key.0 != 0
    requires forall i: nat | i < |s| :: s[i] < |bufs| && bufs[s[i]].Id() != key
    ensures !InCache(bufs, key)
  {
    hide HashFn;
    forall b: nat | b < |bufs| ensures bufs[b].Id() != key {
      assert b in s <==> bufs[b].dev != 0 && HashFn(bufs[b].Id()) == HashFn(key);
    }
  }

  function Unheaded(table: seq<int>, h: nat, b: nat, next: int): seq<int> {
    if h < |table| && table[h] == b then table[h := next] else table
  }

  /** best is NULL if the first i of the list are in use, and else the first that is not, of least badness. */
  ghost predicate BestOf(bufs: seq<Buf>, ring: seq<nat>, i: nat, best: int, k: nat) {
    && i <= |ring| && (forall j: nat | j < |ring| :: ring[j] < |bufs|)
    && (best == NULL ==> forall j: nat | j < i :: bufs[ring[j]].count != 0)
    && (best != NULL ==> k < i && best == ring[k] && bufs[best].count == 0)
    && (best != NULL ==> forall j: nat | j < i && bufs[ring[j]].count == 0 ::
         Badness(bufs[best]) + (if j < k then 1 else 0) <= Badness(bufs[ring[j]]))
  }

  predicate Unused(bufs: seq<Buf>, b: nat) {
    b < |bufs| && bufs[b].count == 0
  }

  /** Clean buffers go before dirty ones, and among those with the same mark unlocked ones before locked ones. */
  predicate Preferred(x: Buf, y: Buf) {
    if x.dirty == y.dirty then x.lock == Free && y.lock != Free else !x.dirty
  }

  /** Nobody uses buffer b, none is to be preferred to it, and it is preferred to all that come before it. */
  ghost predicate FirstBest(bufs: seq<Buf>, ring: seq<nat>, b: nat) {
    && Unused(bufs, b) && b in ring
    && (forall x: nat | Unused(bufs, x) :: !Preferred(bufs[x], bufs[b]))
    && (forall j: nat | j < IndexOf(ring, b) && Unused(bufs, ring[j]) :: Preferred(bufs[b], bufs[ring[j]]))
  }

  lemma BestOfAll(bufs: seq<Buf>, ring: seq<nat>, i: nat, best: int, k: nat)
    requires BestOf(bufs, ring, i, best, k) && Everyone(ring, |bufs|) && Distinct(ring)
    requires i == |ring| || (best != NULL && Badness(bufs[best]) == 0)
    ensures best == NULL <==> forall b: nat | b < |bufs| :: bufs[b].count != 0
    ensures best != NULL ==> 0 <= best < |bufs| && FirstBest(bufs, ring, best)
  {
    if best == NULL {
      forall b: nat | b < |bufs| ensures bufs[b].count != 0 { var j := IndexOf(ring, b); }
    } else {
      assert IndexOf(ring, best) == k;
      forall x: nat | Unused(bufs, x) ensures !Preferred(bufs[x], bufs[best]) {
        var j := IndexOf(ring, x);
        assert j < i ==> Badness(bufs[best]) <= Badness(bufs[ring[j]]);
      }
    }
  }

  lemma IndexIs(s: seq<nat>, i: nat)
    requires Distinct(s) && i < |s|
    ensures s[i] in s && IndexOf(s, s[i]) == i
  {
  }

  /** Where the others are once b has become the last. */
  lemma MovedAt(ring: seq<nat>, b: nat, j: nat)
    requires Distinct(ring) && b in ring && j < |ring| && ring[j] != b
    ensures var m := MovedLast(ring, b);
      && ring[j] in m && IndexOf(m, ring[j]) == (if j < IndexOf(ring, b) then j else j - 1)
      && b in m && IndexOf(m, b) == |ring| - 1
  {
    var i := IndexOf(ring, b);
    var c := Cut(ring, i);
    CutIs(ring, i);
    JoinDistinct(c, [b]);
    hide IndexOf, Distinct;
    IndexIs(c + [b], if j < i then j else j - 1);
    IndexIs(c + [b], |c|);
  }

  /** Least recently taken first: the buffer taken last is taken again only if it is preferred to every other
      one that nobody uses. */
  lemma TakenLast(bufs: seq<Buf>, ring: seq<nat>, b: nat, x: nat)
    requires Distinct(ring) && Everyone(ring, |bufs|) && b in ring
    requires FirstBest(bufs, MovedLast(ring, b), b) && Unused(bufs, x) && x != b
    ensures Preferred(bufs[b], bufs[x])
  {
    hide MovedLast;
    MovedAt(ring, b, IndexOf(ring, x));
  }

  /** And the others keep their order. */
  lemma OthersKeepOrder(ring: seq<nat>, b: nat, i: nat, j: nat)
    requires Distinct(ring) && b in ring && i < j < |ring| && ring[i] != b && ring[j] != b
    ensures var m := MovedLast(ring, b);
      ring[i] in m && ring[j] in m && IndexOf(m, ring[i]) < IndexOf(m, ring[j]) < |ring| - 1
  {
    hide MovedLast;
    MovedAt(ring, b, i);
    MovedAt(ring, b, j);
  }

  /** Buffers that stay for their blocks stay in their chains. */
  lemma SameIds(bufs: seq<Buf>, cufs: seq<Buf>, chains: seq<seq<nat>>, but: int)
    requires |bufs| == |cufs| && AllFiled(bufs, chains, but)
    requires forall b: nat | b < |bufs| && b != but :: bufs[b].dev == cufs[b].dev && bufs[b].block == cufs[b].block
    ensures AllFiled(cufs, chains, but)
  {
    hide HashFn;
    forall h: nat | h < NR_HASH ensures Filed(cufs, chains[h], h, but) {
      assert Filed(bufs, chains[h], h, but);
    }
  }

  // ---------------------------------------------------------------- a buffer changes its chain

  function ChainsWithout(chains: seq<seq<nat>>, h: nat, b: nat): seq<seq<nat>> {
    if h < |chains| && b in chains[h] then chains[h := Cut(chains[h], IndexOf(chains[h], b))] else chains
  }

  lemma UnhookChains(ls: seq<Links>, table: seq<int>, bufs: seq<Buf>, chains: seq<seq<nat>>, b: nat)
    requires AllChained(ls, table, chains) && AllFiled(bufs, chains, NULL) && Loose(ls, bufs, NULL) && b < |bufs|
    ensures var h := HashFn(bufs[b].Id()); var ms := Unhash(ls, b);
      && NULL <= ls[b].next < |ls| && NULL <= ls[b].prev < |ls|
      && AllChained(ms, Unheaded(table, h, b, ms[b].next), ChainsWithout(chains, h, b))
      && AllFiled(bufs, ChainsWithout(chains, h, b), b) && Loose(ms, bufs, b)
      && (forall x: nat | x < |ls| :: ms[x].prevFree == ls[x].prevFree && ms[x].nextFree == ls[x].nextFree)
  {
    hide HashFn;
    var h, ms := HashFn(bufs[b].Id()), Unhash(ls, b);
    var s := chains[h];
    assert Filed(bufs, s, h, NULL) && ChainOk(ls, table[h], s);
    if bufs[b].dev == 0 {
      assert ms == ls && b !in s;
      forall g: nat | g < NR_HASH ensures Filed(bufs, chains[g], g, b) { assert Filed(bufs, chains[g], g, NULL); }
    } else {
      var i := IndexOf(s, b);
      assert Hung(ls, s, i);
      ChainRemove(ls, s, i);
      CutIs(s, i);
      UnhookOthers(ls, table, bufs, chains, b, i);
    }
  }

  lemma UnhookOthers(ls: seq<Links>, table: seq<int>, bufs: seq<Buf>, chains: seq<seq<nat>>, b: nat, i: nat)
    requires AllChained(ls, table, chains) && AllFiled(bufs, chains, NULL) && |ls| == |bufs|
    requires b < |bufs| && i < |chains[HashFn(bufs[b].Id())]| && chains[HashFn(bufs[b].Id())][i] == b
    ensures forall g: nat | g < NR_HASH && g != HashFn(bufs[b].Id()) ::
      ChainOk(Unhash(ls, b), table[g], chains[g]) && Filed(bufs, chains[g], g, b)
    ensures forall x: nat | x < |bufs| && bufs[x].dev == 0 :: Unhash(ls, b)[x] == ls[x]
  {
    hide HashFn;
    var h := HashFn(bufs[b].Id());
    var s := chains[h];
    assert Filed(bufs, s, h, NULL) && ChainOk(ls, table[h], s) && Hung(ls, s, i);
    if i > 0 { assert s[i - 1] in s; }
    if i + 1 < |s| { assert s[i + 1] in s; }
    assert b in s;
    forall g: nat | g < NR_HASH && g != h
      ensures ChainOk(Unhash(ls, b), table[g], chains[g]) && Filed(bufs, chains[g], g, b)
    {
      assert Filed(bufs, chains[g], g, NULL) && ChainOk(ls, table[g], chains[g]);
      ChainFrame(ls, Unhash(ls, b), table[g], chains[g]);
    }
  }
}
