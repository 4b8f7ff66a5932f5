// The buffer cache of fs/buffer.c as a state machine: processes inside getblk, bread and brelse, the
// requests of the block drivers, and the disk. Between two sleeps a process takes one step.

module CacheSpec {
  type Data = seq<int>

  /** A device, 0 for none, and a block number. */
  type Key = (nat, nat)

  datatype Lock = Free | Reading | Writing

  datatype Buf = Buf(dev: nat, block: nat, uptodate: bool, dirty: bool, lock: Lock, count: int, data: Data) {
    function Id(): Key { (dev, block) }
  }

  /** Where a process is: Find is the head of getblk, WaitHash the wait of get_hash_table and WaitFree
      the waits of getblk for the free buffer it has chosen. */
  datatype Pc = Idle | Find(key: Key) | WaitHash(key: Key, b: nat) | WaitFree(key: Key, b: nat)

  /** held: the buffers got and not yet released, as often as they were got. */
  datatype Proc = Proc(pc: Pc, held: multiset<nat>)

  datatype Cache = Cache(bufs: seq<Buf>, procs: seq<Proc>, disk: map<Key, Data>)

  function OnDisk(disk: map<Key, Data>, k: Key): Data {
    if k in disk then disk[k] else []
  }

  /** How often p counts in b_count of buffer b. */
  function Uses(p: Proc, b: nat): nat {
    p.held[b] + if p.pc.WaitHash? && p.pc.b == b then 1 else 0
  }

  function Users(ps: seq<Proc>, b: nat): nat {
    if ps == [] then 0 else Uses(ps[0], b) + Users(ps[1..], b)
  }

  // ---------------------------------------------------------------- what always holds

  /** No two buffers are for the same block. */
  ghost predicate Unique(bufs: seq<Buf>) {
    forall i: nat, j: nat | i < j < |bufs| && bufs[i].dev != 0 :: bufs[i].Id() != bufs[j].Id()
  }

  /** A buffer's marks agree with each other and, if it is up to date and not on its way out, its
      contents with the disk. */
  ghost predicate Coherent(b: Buf, disk: map<Key, Data>) {
    && (b.dirty || b.lock == Writing ==> b.uptodate)
    && (b.lock == Reading ==> !b.uptodate)
    && (b.uptodate && !b.dirty && b.lock != Writing ==> b.data == OnDisk(disk, b.Id()))
    && (b.uptodate || b.lock != Free ==> b.dev != 0)
  }

  ghost predicate Counted(c: Cache) {
    forall b: nat | b < |c.bufs| :: c.bufs[b].count == Users(c.procs, b)
  }

  /** A process that waits for a buffer it has found waits for the right one. */
  ghost predicate Waiting(p: Proc, bufs: seq<Buf>) {
    && (p.pc.Find? ==> p.pc.key.0 != 0)
    && (p.pc.WaitHash? ==> p.pc.b < |bufs| && bufs[p.pc.b].Id() == p.pc.key && p.pc.key.0 != 0)
    && (p.pc.WaitFree? ==> p.pc.b < |bufs| && p.pc.key.0 != 0)
  }

  ghost predicate Inv(c: Cache) {
    && Unique(c.bufs)
    && (forall b: nat | b < |c.bufs| :: Coherent(c.bufs[b], c.disk))
    && Counted(c)
    && (forall p: nat | p < |c.procs| :: Waiting(c.procs[p], c.bufs))
  }

  // ---------------------------------------------------------------- the steps

  datatype Step =
    | Call(p: nat, key: Key)         // getblk is called
    | Found(p: nat, b: nat)          // the block is in the cache: count it and wait for it
    | GotHash(p: nat)                // it is unlocked: look again whether it is the right one
    | Choose(p: nat, b: nat)         // it is not: a buffer nobody uses is chosen
    | Take(p: nat)                   // the chosen buffer is unlocked: take it or start again
    | Release(p: nat, b: nat)        // brelse
    | Store(p: nat, b: nat, d: Data) // the holder changes valid contents
    | Fill(p: nat, b: nat, d: Data)  // the holder supplies all contents
    | StartRead(b: nat) | EndRead(b: nat) | StartWrite(b: nat) | EndWrite(b: nat)

  ghost predicate InCache(bufs: seq<Buf>, k: Key) {
    exists b: nat :: b < |bufs| && bufs[b].Id() == k
  }

  ghost predicate Enabled(c: Cache, e: Step) {
    match e
    case Call(p, key) => p < |c.procs| && c.procs[p].pc == Idle && key.0 != 0
    case Found(p, b) => p < |c.procs| && b < |c.bufs| && c.procs[p].pc.Find? && c.bufs[b].Id() == c.procs[p].pc.key
    case GotHash(p) =>
      p < |c.procs| && c.procs[p].pc.WaitHash? && c.procs[p].pc.b < |c.bufs| && c.bufs[c.procs[p].pc.b].lock == Free
    case Choose(p, b) =>
      && p < |c.procs| && b < |c.bufs| && c.procs[p].pc.Find?
      && !InCache(c.bufs, c.procs[p].pc.key) && c.bufs[b].count == 0
    case Take(p) =>
      p < |c.procs| && c.procs[p].pc.WaitFree? && c.procs[p].pc.b < |c.bufs| && c.bufs[c.procs[p].pc.b].lock == Free
    case Release(p, b) => p < |c.procs| && b < |c.bufs| && b in c.procs[p].held && c.bufs[b].lock == Free
    case Store(p, b, d) => p < |c.procs| && b < |c.bufs| && b in c.procs[p].held && c.bufs[b].uptodate
    case Fill(p, b, d) =>
      p < |c.procs| && b < |c.bufs| && b in c.procs[p].held && c.bufs[b].dev != 0 && c.bufs[b].lock != Reading
    case StartRead(b) => b < |c.bufs| && c.bufs[b].lock == Free && !c.bufs[b].uptodate && c.bufs[b].dev != 0
    case EndRead(b) => b < |c.bufs| && c.bufs[b].lock == Reading
    case StartWrite(b) => b < |c.bufs| && c.bufs[b].lock == Free && c.bufs[b].dirty
    case EndWrite(b) => b < |c.bufs| && c.bufs[b].lock == Writing
  }

  function SetBuf(c: Cache, b: nat, x: Buf): Cache {
    if b < |c.bufs| then c.(bufs := c.bufs[b := x]) else c
  }

  function SetProc(c: Cache, p: nat, x: Proc): Cache {
    if p < |c.procs| then c.(procs := c.procs[p := x]) else c
  }

  /** The end of getblk: the buffer is given to another block. */
  function Reused(x: Buf, key: Key): Buf {
    x.(dev := key.0, block := key.1, count := 1, dirty := false, uptodate := false)
  }

  ghost function Next(c: Cache, e: Step): Cache
    requires Enabled(c, e)
  {
    match e
    case Call(p, key) => SetProc(c, p, c.procs[p].(pc := Find(key)))
    case Found(p, b) =>
      SetProc(SetBuf(c, b, c.bufs[b].(count := c.bufs[b].count + 1)), p,
              c.procs[p].(pc := WaitHash(c.procs[p].pc.key, b)))
    case GotHash(p) =>
      var (key, b) := (c.procs[p].pc.key, c.procs[p].pc.b);
      if c.bufs[b].Id() == key then SetProc(c, p, Proc(Idle, c.procs[p].held + multiset{b}))
      else SetProc(SetBuf(c, b, c.bufs[b].(count := c.bufs[b].count - 1)), p, c.procs[p].(pc := Find(key)))
    case Choose(p, b) => SetProc(c, p, c.procs[p].(pc := WaitFree(c.procs[p].pc.key, b)))
    case Take(p) =>
      var (key, b) := (c.procs[p].pc.key, c.procs[p].pc.b);
      if c.bufs[b].count == 0 && c.bufs[b].dirty then c
      else if c.bufs[b].count != 0 || InCache(c.bufs, key) then SetProc(c, p, c.procs[p].(pc := Find(key)))
      else SetProc(SetBuf(c, b, Reused(c.bufs[b], key)), p, Proc(Idle, c.procs[p].held + multiset{b}))
    case Release(p, b) =>
      SetProc(SetBuf(c, b, c.bufs[b].(count := c.bufs[b].count - 1)), p,
              c.procs[p].(held := c.procs[p].held - multiset{b}))
    case Store(p, b, d) => SetBuf(c, b, c.bufs[b].(data := d, dirty := true))
    case Fill(p, b, d) => SetBuf(c, b, c.bufs[b].(data := d, dirty := true, uptodate := true))
    case StartRead(b) => SetBuf(c, b, c.bufs[b].(lock := Reading))
    case EndRead(b) => SetBuf(c, b, c.bufs[b].(lock := Free, uptodate := true, data := OnDisk(c.disk, c.bufs[b].Id())))
    case StartWrite(b) => SetBuf(c, b, c.bufs[b].(lock := Writing, dirty := false))
    case EndWrite(b) =>
      SetBuf(c, b, c.bufs[b].(lock := Free, uptodate := true)).(disk := c.disk[c.bufs[b].Id() := c.bufs[b].data])
  }

  // ---------------------------------------------------------------- counting users

  lemma {:induction false} UsersSet(ps: seq<Proc>, p: nat, x: Proc, b: nat)
    requires p < |ps|
    ensures Users(ps[p := x], b) == Users(ps, b) + Uses(x, b) - Uses(ps[p], b)
  {
    if p == 0 {
      assert ps[p := x][1..] == ps[1..];
    } else {
      UsersSet(ps[1..], p - 1, x, b);
      assert ps[p := x][1..] == ps[1..][p - 1 := x];
    }
  }

  lemma {:induction false} UserIsCounted(ps: seq<Proc>, p: nat, b: nat)
    requires p < |ps|
    ensures Users(ps, b) >= Uses(ps[p], b)
  {
    if p > 0 { UserIsCounted(ps[1..], p - 1, b); }
  }

  lemma CountedNext(c: Cache, e: Step)
    requires Inv(c) && Enabled(c, e)
    ensures Counted(Next(c, e))
  {
    forall b: nat | b < |Next(c, e).bufs| ensures Next(c, e).bufs[b].count == Users(Next(c, e).procs, b) {
      CountedAt(c, e, b);
    }
  }

  predicate OfProcess(e: Step) {
    e.Call? || e.Found? || e.GotHash? || e.Choose? || e.Take? || e.Release?
  }

  lemma CountedAt(c: Cache, e: Step, b: nat)
    requires Counted(c) && Enabled(c, e) && b < |Next(c, e).bufs|
    ensures Next(c, e).bufs[b].count == Users(Next(c, e).procs, b)
  {
    assert c.bufs[b].count == Users(c.procs, b);
    hide Users, Counted, InCache;
    if OfProcess(e) {
      StepOfProcess(c, e, b);
      UsersSet(c.procs, e.p, Next(c, e).procs[e.p], b);
    } else {
      assert Next(c, e).procs == c.procs;
    }
  }

  /** A step of a process changes its own uses of a buffer, and the count of that buffer likewise. */
  lemma StepOfProcess(c: Cache, e: Step, b: nat)
    requires Enabled(c, e) && OfProcess(e) && b < |c.bufs| && (e.Take? ==> c.bufs[b].count >= 0)
    ensures var n := Next(c, e);
      && e.p < |n.procs| && n.procs == c.procs[e.p := n.procs[e.p]] && |n.bufs| == |c.bufs|
      && n.bufs[b].count - c.bufs[b].count == Uses(n.procs[e.p], b) - Uses(c.procs[e.p], b)
  {
    hide InCache;
  }

  /** A buffer in use keeps its block. */
  lemma KeepsIdentity(c: Cache, e: Step, b: nat)
    requires Enabled(c, e) && b < |c.bufs| && c.bufs[b].count > 0
    ensures |Next(c, e).bufs| == |c.bufs| && Next(c, e).bufs[b].Id() == c.bufs[b].Id()
  {
  }

  lemma UniqueNext(c: Cache, e: Step)
    requires Inv(c) && Enabled(c, e)
    ensures Unique(Next(c, e).bufs)
  {
    var n := Next(c, e);
    if n.bufs != c.bufs && e.Take? {
      var b, key := c.procs[e.p].pc.b, c.procs[e.p].pc.key;
      assert forall i: nat | i < |c.bufs| :: c.bufs[i].Id() != key;
      assert forall i: nat | i < |c.bufs| && i != b :: n.bufs[i] == c.bufs[i];
    } else {
      assert forall i: nat | i < |c.bufs| :: n.bufs[i].Id() == c.bufs[i].Id() && n.bufs[i].dev == c.bufs[i].dev;
    }
  }

  lemma CoherentNext(c: Cache, e: Step, b: nat)
    requires Inv(c) && Enabled(c, e) && b < |c.bufs|
    ensures b < |Next(c, e).bufs| && Coherent(Next(c, e).bufs[b], Next(c, e).disk)
  {
    assert Coherent(c.bufs[b], c.disk);
    if e.EndWrite? {
      assert Coherent(c.bufs[e.b], c.disk);
      assert e.b < b ==> c.bufs[e.b].Id() != c.bufs[b].Id();
      assert b < e.b && c.bufs[b].dev != 0 ==> c.bufs[b].Id() != c.bufs[e.b].Id();
    }
  }

  lemma WaitingNext(c: Cache, e: Step, p: nat)
    requires Inv(c) && Enabled(c, e) && p < |c.procs|
    ensures p < |Next(c, e).procs| && Waiting(Next(c, e).procs[p], Next(c, e).bufs)
  {
    assert Waiting(c.procs[p], c.bufs);
    if c.procs[p].pc.WaitHash? {
      var b := c.procs[p].pc.b;
      UserIsCounted(c.procs, p, b);
      assert c.bufs[b].count > 0;
      KeepsIdentity(c, e, b);
    }
  }

  lemma NextInv(c: Cache, e: Step)
    requires Inv(c) && Enabled(c, e)
    ensures Inv(Next(c, e))
  {
    UniqueNext(c, e);
    CountedNext(c, e);
    forall b: nat | b < |Next(c, e).bufs| ensures Coherent(Next(c, e).bufs[b], Next(c, e).disk) {
      CoherentNext(c, e, b);
    }
    forall p: nat | p < |Next(c, e).procs| ensures Waiting(Next(c, e).procs[p], Next(c, e).bufs) {
      WaitingNext(c, e, p);
    }
  }

  // ---------------------------------------------------------------- what getblk promises

  /** getblk ends with a buffer for the right block, in use and unlocked. If it was taken from another
      block, it was unused, unlocked and clean. The second look of get_hash_table never fails. */
  lemma GetblkRight(c: Cache, e: Step)
    requires Inv(c) && Enabled(c, e) && (e.GotHash? || e.Take?)
    ensures e.GotHash? ==> Next(c, e).procs[e.p].pc == Idle
    ensures Next(c, e).procs[e.p].pc == Idle ==>
      var b, key := c.procs[e.p].pc.b, c.procs[e.p].pc.key;
      var x := Next(c, e).bufs[b];
      && b in Next(c, e).procs[e.p].held
      && x.Id() == key && x.count >= 1 && x.lock == Free
      && (c.bufs[b].Id() != key ==> c.bufs[b].count == 0 && c.bufs[b].lock == Free && !c.bufs[b].dirty)
  {
    NextInv(c, e);
    assert Waiting(c.procs[e.p], c.bufs);
    UserIsCounted(Next(c, e).procs, e.p, c.procs[e.p].pc.b);
  }

  /** getblk goes on as soon as it can: when the buffer it has chosen is unlocked, it takes it unless somebody
      uses it or has brought in the block meanwhile, for which it looks again, or it must be written first. */
  lemma TakeDecides(c: Cache, p: nat)
    requires Inv(c) && Enabled(c, Take(p))
    ensures var x, key, n := c.bufs[c.procs[p].pc.b], c.procs[p].pc.key, Next(c, Take(p));
      && (n.procs[p].pc == Idle <==> x.count == 0 && !x.dirty && !InCache(c.bufs, key))
      && (n.procs[p].pc == Find(key) <==> x.count != 0 || (!x.dirty && InCache(c.bufs, key)))
      && (x.count == 0 && x.dirty <==> n == c)
  {
    var n := Next(c, Take(p));
    assert n != c <== n.procs[p].pc != c.procs[p].pc;
  }

  /** Undisturbed, getblk succeeds: a block not in the cache gets the unused, clean, unlocked buffer chosen. */
  lemma Undisturbed(c: Cache, p: nat, key: Key, b: nat)
    requires Inv(c) && Enabled(c, Call(p, key)) && !InCache(c.bufs, key)
    requires b < |c.bufs| && c.bufs[b].count == 0 && c.bufs[b].lock == Free && !c.bufs[b].dirty
    ensures var c1 := Next(c, Call(p, key));
      Enabled(c1, Choose(p, b)) && var c2 := Next(c1, Choose(p, b));
      Enabled(c2, Take(p)) && var c3 := Next(c2, Take(p));
      && c3.procs[p].pc == Idle && c3.procs[p].held == c.procs[p].held + multiset{b}
      && c3.bufs[b].Id() == key && c3.bufs[b].count == 1 && !c3.bufs[b].uptodate
      && forall a: nat | a < |c.bufs| && a != b :: c3.bufs[a] == c.bufs[a]
  {
  }

  /** A block in the cache is found, and got when it is unlocked. */
  lemma FoundIsGot(c: Cache, p: nat, key: Key, b: nat)
    requires Inv(c) && Enabled(c, Call(p, key)) && b < |c.bufs| && c.bufs[b].Id() == key && c.bufs[b].lock == Free
    ensures var c1 := Next(c, Call(p, key));
      Enabled(c1, Found(p, b)) && var c2 := Next(c1, Found(p, b));
      Enabled(c2, GotHash(p)) && var c3 := Next(c2, GotHash(p));
      && c3.procs[p].pc == Idle && c3.procs[p].held == c.procs[p].held + multiset{b}
      && c3.bufs == c.bufs[b := c.bufs[b].(count := c.bufs[b].count + 1)]
  {
  }

  /** A read leaves the buffer unlocked and up to date, with what the disk has. */
  lemma ReadBrings(c: Cache, b: nat)
    requires Inv(c) && Enabled(c, StartRead(b))
    ensures var c1 := Next(c, StartRead(b));
      Enabled(c1, EndRead(b)) && var c2 := Next(c1, EndRead(b));
      && c2.bufs[b].lock == Free && c2.bufs[b].uptodate && c2.bufs[b].data == OnDisk(c.disk, c.bufs[b].Id())
      && c2.disk == c.disk && c1.bufs[b].lock != Free
  {
  }

  /** A write leaves it unlocked and clean, and the disk has its contents. */
  lemma WriteReaches(c: Cache, b: nat)
    requires Inv(c) && Enabled(c, StartWrite(b))
    ensures var c1 := Next(c, StartWrite(b));
      Enabled(c1, EndWrite(b)) && var c2 := Next(c1, EndWrite(b));
      && c2.bufs[b].lock == Free && !c2.bufs[b].dirty && c2.bufs[b].data == c.bufs[b].data
      && c2.disk == c.disk[c.bufs[b].Id() := c.bufs[b].data] && c1.bufs[b].lock != Free
  {
  }

  ghost predicate Possible(c: Cache, run: seq<Step>)
    decreases |run|
  {
    run == [] || (Enabled(c, run[0]) && Possible(Next(c, run[0]), run[1..]))
  }

  ghost function Run(c: Cache, run: seq<Step>): Cache
    requires Possible(c, run)
    decreases |run|
  {
    if run == [] then c else Run(Next(c, run[0]), run[1..])
  }

  ghost predicate Holds(c: Cache, p: nat, b: nat) {
    p < |c.procs| && b < |c.bufs| && b in c.procs[p].held
  }

  /** As long as a process holds a buffer, whatever all others do, the buffer is for the same block. */
  ghost predicate HoldsThrough(c: Cache, run: seq<Step>, p: nat, b: nat)
    requires Possible(c, run)
    decreases |run|
  {
    Holds(c, p, b) && (run == [] || HoldsThrough(Next(c, run[0]), run[1..], p, b))
  }

  lemma {:induction false} HeldKeepsBlock(c: Cache, run: seq<Step>, p: nat, b: nat)
    requires Inv(c) && Possible(c, run) && HoldsThrough(c, run, p, b)
    ensures Inv(Run(c, run)) && b < |Run(c, run).bufs| && Run(c, run).bufs[b].Id() == c.bufs[b].Id()
    decreases |run|
  {
    if run != [] {
      UserIsCounted(c.procs, p, b);
      assert c.bufs[b].count > 0;
      KeepsIdentity(c, run[0], b);
      NextInv(c, run[0]);
      HeldKeepsBlock(Next(c, run[0]), run[1..], p, b);
    }
  }

  /** At first no buffer is for any block and nobody uses one. */
  ghost predicate Fresh(c: Cache) {
    && (forall b: nat | b < |c.bufs| ::
        c.bufs[b].dev == 0 && !c.bufs[b].uptodate && !c.bufs[b].dirty && c.bufs[b].lock == Free && c.bufs[b].count == 0)
    && (forall p: nat | p < |c.procs| :: c.procs[p] == Proc(Idle, multiset{}))
  }

  lemma {:induction false} FreshUnused(ps: seq<Proc>, b: nat)
    requires forall p: nat | p < |ps| :: ps[p] == Proc(Idle, multiset{})
    ensures Users(ps, b) == 0
  {
    if ps != [] {
      assert ps[0] == Proc(Idle, multiset{});
      FreshUnused(ps[1..], b);
    }
  }

  lemma FreshInv(c: Cache)
    requires Fresh(c)
    ensures Inv(c)
  {
    forall b: nat | b < |c.bufs| ensures c.bufs[b].count == Users(c.procs, b) {
      FreshUnused(c.procs, b);
    }
  }

  /** The panic of brelse, a buffer released more often than got, cannot happen. */
  lemma NeverReleasedFree(c: Cache, p: nat, b: nat)
    requires Inv(c) && Enabled(c, Release(p, b))
    ensures c.bufs[b].count >= 1
  {
    UserIsCounted(c.procs, p, b);
  }

  // ---------------------------------------------------------------- transparency

  ghost predicate Cached(c: Cache, k: Key, b: nat) {
    b < |c.bufs| && c.bufs[b].Id() == k && c.bufs[b].uptodate
  }

  /** What a block contains for the callers: the buffer if it is up to date, else the disk. */
  ghost function View(c: Cache, k: Key): Data {
    if exists b: nat :: Cached(c, k, b) then
      var b: nat :| Cached(c, k, b); c.bufs[b].data
    else OnDisk(c.disk, k)
  }

  lemma ViewIs(c: Cache, k: Key, b: nat)
    requires Inv(c) && k.0 != 0 && Cached(c, k, b)
    ensures View(c, k) == c.bufs[b].data
  {
    forall a: nat | Cached(c, k, a) ensures a == b {
      OnlyOne(c.bufs, a, b);
    }
  }

  lemma OnlyOne(bufs: seq<Buf>, a: nat, b: nat)
    requires Unique(bufs) && a < |bufs| && b < |bufs|
    ensures bufs[a].Id() == bufs[b].Id() && bufs[b].dev != 0 ==> a == b
  {
  }

  /** What a step writes, if it is a caller's. */
  ghost predicate Writes(c: Cache, e: Step, k: Key) {
    (e.Store? || e.Fill?) && e.b < |c.bufs| && c.bufs[e.b].Id() == k
  }

  /** Only a caller's write changes what a block contains, and only of that block: lookup, eviction,
      reading, and writing back do not. */
  lemma Transparent(c: Cache, e: Step, k: Key)
    requires Inv(c) && Enabled(c, e) && k.0 != 0
    ensures View(Next(c, e), k) == if Writes(c, e, k) then e.d else View(c, k)
  {
    NextInv(c, e);
    var n := Next(c, e);
    if Writes(c, e, k) {
      assert Cached(n, k, e.b);
      ViewIs(n, k, e.b);
    } else if b: nat :| Cached(n, k, b) {
      ViewIs(n, k, b);
      BufferShows(c, e, k, b);
    } else {
      NothingCached(c, e, k);
    }
  }

  lemma BufferShows(c: Cache, e: Step, k: Key, b: nat)
    requires Inv(c) && Enabled(c, e) && k.0 != 0 && !Writes(c, e, k) && Cached(Next(c, e), k, b)
    ensures View(c, k) == Next(c, e).bufs[b].data
  {
    assert c.bufs[b].Id() == k;
    if c.bufs[b].uptodate {
      ViewIs(c, k, b);
    } else {
      assert e.EndRead? && e.b == b;
      forall a: nat ensures !Cached(c, k, a) {
        if a < |c.bufs| { OnlyOne(c.bufs, a, b); }
      }
    }
  }

  lemma NothingCached(c: Cache, e: Step, k: Key)
    requires Inv(c) && Enabled(c, e) && k.0 != 0 && !Writes(c, e, k) && forall b: nat :: !Cached(Next(c, e), k, b)
    ensures View(c, k) == OnDisk(Next(c, e).disk, k)
  {
    if b: nat :| Cached(c, k, b) {
      ViewIs(c, k, b);
      assert Coherent(c.bufs[b], c.disk);
      assert !Cached(Next(c, e), k, b);
    }
    if e.EndWrite? { assert Coherent(c.bufs[e.b], c.disk) && !Cached(Next(c, e), k, e.b); }
  }

  /** The last write of a run to a block. */
  ghost function Written(c: Cache, run: seq<Step>, k: Key, d: Data): Data
    requires Possible(c, run)
    decreases |run|
  {
    if run == [] then d
    else Written(Next(c, run[0]), run[1..], k, if Writes(c, run[0], k) then run[0].d else d)
  }

  /** Over every run a block contains what was last written to it. */
  lemma {:induction false} TransparentRun(c: Cache, run: seq<Step>, k: Key)
    requires Inv(c) && Possible(c, run) && k.0 != 0
    ensures Inv(Run(c, run)) && View(Run(c, run), k) == Written(c, run, k, View(c, k))
    decreases |run|
  {
    if run != [] {
      NextInv(c, run[0]);
      Transparent(c, run[0], k);
      TransparentRun(Next(c, run[0]), run[1..], k);
    }
  }

  /** So what a process finds in an up-to-date buffer that it holds, as bread returns it, is what was
      last written to the block it asked for. */
  lemma ReadsTheLatest(c: Cache, run: seq<Step>, p: nat, b: nat)
    requires Inv(c) && Possible(c, run) && Holds(Run(c, run), p, b) && Run(c, run).bufs[b].uptodate
    ensures Run(c, run).bufs[b].data == Written(c, run, Run(c, run).bufs[b].Id(), View(c, Run(c, run).bufs[b].Id()))
  {
    var n := Run(c, run);
    var k := n.bufs[b].Id();
    RunInv(c, run);
    assert Coherent(n.bufs[b], n.disk);
    assert Cached(n, k, b);
    ViewIs(n, k, b);
    TransparentRun(c, run, k);
  }

  lemma {:induction false} RunInv(c: Cache, run: seq<Step>)
    requires Inv(c) && Possible(c, run)
    ensures Inv(Run(c, run))
    decreases |run|
  {
    if run != [] {
      NextInv(c, run[0]);
      RunInv(Next(c, run[0]), run[1..]);
    }
  }
}
