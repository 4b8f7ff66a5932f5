// make_request, add_request and end_request on the 32 request slots, which all drivers share.

module BlockQueue {
  import opened ElevatorSpec
  import opened Sequences

  const NR_REQUEST: nat := 32
  const WRITE_LIMIT: nat := (NR_REQUEST * 2) / 3
  const READ: nat := 0
  const WRITE: nat := 1

  datatype Command = Read | Write | ReadAhead | WriteAhead {
    function Plain(): nat { if Read? || ReadAhead? then READ else WRITE }
    predicate Ahead() { ReadAhead? || WriteAhead? }
  }

  /** A slot of request[]: dev is negative if it is free, bh is the buffer, next a slot or NULL. */
  datatype Request = Request(dev: int, cmd: nat, sector: nat, bh: int, next: int) {
    function Sort(): Key { ElevatorSpec.Key(cmd, if dev < 0 then 0 else dev, sector) }
  }

  /** As much of a buffer head as the request queue looks at. */
  datatype BufferHead = BufferHead(dev: nat, block: nat, locked: bool, dirty: bool, uptodate: bool)

  /** Dropped: a read- or write-ahead given up. Needless: nothing to do. LockWait and SlotWait: the
      caller sleeps, and goes on with MakeRequest or with Enqueue. */
  datatype Outcome = Dropped | Needless | LockWait | SlotWait | Queued

  function NextOf(s: seq<nat>, i: nat): int {
    if i + 1 < |s| then s[i + 1] else NULL
  }

  function Keys(rs: seq<Request>, slots: seq<nat>): (ks: seq<Key>)
    ensures |ks| == |slots|
  {
    seq(|slots|, i requires 0 <= i < |slots| => if slots[i] < |rs| then rs[slots[i]].Sort() else Key(0, 0, 0))
  }

  /** A block has one buffer at most: what the buffer cache takes care of. */
  ghost predicate OneBufferEach(bs: seq<BufferHead>) {
    forall a: nat, b: nat | a < b < |bs| :: bs[a].dev != bs[b].dev || bs[a].block != bs[b].block
  }

  /** A request in the queue is for the block of a locked buffer, and writes leave the last third of
      the slots alone. */
  predicate Busy(r: Request, s: nat, bs: seq<BufferHead>) {
    && r.dev >= 0 && 0 <= r.bh < |bs| && bs[r.bh].locked
    && r.dev == bs[r.bh].dev && r.sector == 2 * bs[r.bh].block
    && (r.cmd == READ || (r.cmd == WRITE && s < WRITE_LIMIT))
  }

  ghost predicate Chained(rs: seq<Request>, slots: seq<nat>) {
    && Distinct(slots)
    && (forall i: nat {:trigger slots[i]} | i < |slots| :: slots[i] < |rs|)
    && (forall i: nat {:trigger NextOf(slots, i)} | i < |slots| :: rs[slots[i]].next == NextOf(slots, i))
  }

  ghost predicate Filled(rs: seq<Request>, slots: seq<nat>, bs: seq<BufferHead>) {
    && (forall i: nat {:trigger slots[i]} | i < |slots| :: slots[i] < |rs| && Busy(rs[slots[i]], slots[i], bs))
    && (forall i: nat, j: nat | i < j < |slots| ::
        slots[i] < |rs| && slots[j] < |rs| && rs[slots[i]].bh != rs[slots[j]].bh)
  }

  /** The requests of the queue are for devices with this major number. */
  ghost predicate Serves(rs: seq<Request>, slots: seq<nat>, major: nat) {
    forall i: nat {:trigger slots[i]} | i < |slots| :: slots[i] < |rs| ==> rs[slots[i]].dev / 256 == major
  }

  /** What other drivers have in the table is as it was. */
  ghost predicate Untouched(rs: seq<Request>, fs: seq<Request>, slots: seq<nat>) {
    |fs| == |rs| && forall x: nat | x < |rs| && x !in slots && rs[x].dev >= 0 :: fs[x] == rs[x]
  }

  /** Only slot s and those of the queue have changed. */
  ghost predicate OnlyAt(rs: seq<Request>, fs: seq<Request>, slots: seq<nat>, s: nat) {
    |fs| == |rs| && forall x: nat | x < |rs| && x != s && x !in slots :: fs[x] == rs[x]
  }

  ghost predicate Gained(was: seq<nat>, slots: seq<nat>, s: nat) {
    forall x: nat :: x in slots <==> x == s || x in was
  }

  /** No request of the queue is for buffer bh. */
  ghost predicate Unqueued(rs: seq<Request>, slots: seq<nat>, bh: nat) {
    forall i: nat {:trigger slots[i]} | i < |slots| :: slots[i] < |rs| ==> rs[slots[i]].bh != bh
  }

  function InsertAfter(slots: seq<nat>, i: nat, s: nat): seq<nat>
    requires i < |slots|
  {
    slots[..i + 1] + [s] + slots[i + 1..]
  }

  /** rs with slot s linked behind slot tmp. */
  function LinkedAfter(rs: seq<Request>, tmp: nat, s: nat): seq<Request>
    requires tmp < |rs| && s < |rs|
  {
    rs[s := rs[s].(next := rs[tmp].next)][tmp := rs[tmp].(next := s)]
  }

  lemma InsertDistinctSlots(slots: seq<nat>, i: nat, s: nat)
    requires Distinct(slots) && i < |slots| && s !in slots
    ensures Distinct(InsertAfter(slots, i, s))
  {
    var n := InsertAfter(slots, i, s);
    forall j: nat, k: nat | j < k < |n| ensures n[j] != n[k] {
      assert n[j] == (if j <= i then slots[j] else if j == i + 1 then s else slots[j - 1]);
      assert n[k] == (if k <= i then slots[k] else if k == i + 1 then s else slots[k - 1]);
    }
  }

  lemma InsertChained(rs: seq<Request>, slots: seq<nat>, i: nat, s: nat)
    requires Chained(rs, slots) && i < |slots| && s !in slots && s < |rs|
    ensures Chained(LinkedAfter(rs, slots[i], s), InsertAfter(slots, i, s))
  {
    var n, fs := InsertAfter(slots, i, s), LinkedAfter(rs, slots[i], s);
    InsertDistinctSlots(slots, i, s);
    assert NextOf(slots, i) == rs[slots[i]].next;
    forall k: nat | k < |n| ensures n[k] < |rs| && fs[n[k]].next == NextOf(n, k) {
      if k < i {
        assert NextOf(slots, k) == NextOf(n, k) && n[k] == slots[k];
      } else if k > i + 1 {
        assert NextOf(slots, k - 1) == NextOf(n, k) && n[k] == slots[k - 1] && slots[k - 1] != slots[i];
      }
    }
  }

  lemma InsertFilled(rs: seq<Request>, slots: seq<nat>, bs: seq<BufferHead>, i: nat, s: nat)
    requires Filled(rs, slots, bs) && i < |slots| && s !in slots && s < |rs|
    requires Busy(rs[s], s, bs) && Unqueued(rs, slots, rs[s].bh)
    ensures Filled(LinkedAfter(rs, slots[i], s), InsertAfter(slots, i, s), bs)
  {
    var n, fs := InsertAfter(slots, i, s), LinkedAfter(rs, slots[i], s);
    assert forall x: nat | x < |rs| :: fs[x] == rs[x].(next := fs[x].next);
    forall k: nat | k < |n| ensures n[k] < |fs| && Busy(fs[n[k]], n[k], bs) {
      assert n[k] == (if k <= i then slots[k] else if k == i + 1 then s else slots[k - 1]);
    }
    forall j: nat, k: nat | j < k < |n| ensures fs[n[j]].bh != fs[n[k]].bh {
      assert n[j] == (if j <= i then slots[j] else if j == i + 1 then s else slots[j - 1]);
      assert n[k] == (if k <= i then slots[k] else if k == i + 1 then s else slots[k - 1]);
    }
  }

  lemma InsertKeys(rs: seq<Request>, slots: seq<nat>, i: nat, s: nat)
    requires Chained(rs, slots) && i < |slots| && s !in slots && s < |rs|
    ensures Keys(LinkedAfter(rs, slots[i], s), InsertAfter(slots, i, s))
         == Keys(rs, slots)[..i + 1] + [rs[s].Sort()] + Keys(rs, slots)[i + 1..]
  {
    var fs := LinkedAfter(rs, slots[i], s);
    assert forall x: nat | x < |rs| :: fs[x].Sort() == rs[x].Sort();
  }

  /** The test of add_request for putting r between two neighbours. */
  predicate Fits(a: Key, r: Key, b: Key) {
    (InOrder(a, r) || !InOrder(a, b)) && InOrder(r, b)
  }

  lemma Passes(q: seq<Key>, i: nat, r: Key)
    requires i + 1 < |q| && !Fits(q[i], r, q[i + 1])
    ensures q[..i] + Insert(q[i..], r) == q[..i + 1] + Insert(q[i + 1..], r)
  {
    assert q[i..][1..] == q[i + 1..];
    assert q[..i + 1] == q[..i] + [q[i]];
  }

  lemma Stops(q: seq<Key>, i: nat, r: Key)
    requires i < |q| && (i + 1 < |q| ==> Fits(q[i], r, q[i + 1]))
    ensures q[..i] + Insert(q[i..], r) == q[..i + 1] + [r] + q[i + 1..]
  {
    assert q[i..][1..] == q[i + 1..];
    assert q[..i + 1] == q[..i] + [q[i]];
  }

  class Driver {
    const request: array<Request>
    const buffer: array<BufferHead>
    const major: nat
    var current: int
    ghost var slots: seq<nat>

    ghost predicate Valid()
      reads this, request, buffer
    {
      && request.Length == NR_REQUEST && OneBufferEach(buffer[..])
      && current == (if slots == [] then NULL else slots[0])
      && Chained(request[..], slots) && Filled(request[..], slots, buffer[..]) && Serves(request[..], slots, major)
    }

    ghost function Queue(): seq<Key>
      reads this, request
    {
      Keys(request[..], slots)
    }

    /** The caller holds the lock of the buffer and has not queued it yet. */
    ghost predicate Owned(bh: nat)
      reads this, request, buffer
    {
      && bh < buffer.Length && buffer[bh].locked
      && Unqueued(request[..], slots, bh)
    }

    /** The entry of blk_dev[] for a major number. */
    constructor (requests: array<Request>, buffers: array<BufferHead>, nr: nat)
      requires requests.Length == NR_REQUEST && OneBufferEach(buffers[..])
      ensures Valid() && slots == [] && request == requests && buffer == buffers && major == nr
    {
      request := requests;
      buffer := buffers;
      major := nr;
      current := NULL;
      slots := [];
    }

    /** Another driver at the same table. */
    ghost predicate Beside(other: Driver)
      reads this, other
    {
      && other != this && other.request == request && other.buffer == buffer && other.major != major
      && forall x: nat :: x !in slots || x !in other.slots
    }

    /** The queued requests are for different blocks. */
    lemma DistinctKeys()
      requires Valid()
      ensures Distinct(Queue())
    {
      forall i: nat, j: nat | i < j < |slots| ensures Queue()[i] != Queue()[j] {
        var a, b := request[slots[i]], request[slots[j]];
        assert a.bh != b.bh;
        assert Busy(a, slots[i], buffer[..]) && Busy(b, slots[j], buffer[..]);
      }
    }

    lemma NewKey(bh: nat, r: Request)
      requires Valid() && Owned(bh) && r.bh == bh && r.dev == buffer[bh].dev && r.sector == 2 * buffer[bh].block
      ensures r.Sort() !in Queue()
    {
      forall i: nat | i < |slots| ensures Queue()[i] != r.Sort() {
        var a := request[slots[i]];
        assert a.bh != bh && Busy(a, slots[i], buffer[..]);
      }
    }

    /** The queue has gained free slots at most. */
    ghost predicate Joined(rs: seq<Request>, was: seq<nat>)
      reads this
    {
      forall x: nat | x in slots && x !in was :: x < |rs| && rs[x].dev < 0
    }

    /** The search for a free slot, from the end for reads and from two thirds for writes. */
    method FindSlot(cmd: nat) returns (s: int)
      requires request.Length == NR_REQUEST && (cmd == READ || cmd == WRITE)
      ensures NULL <= s < (if cmd == READ then NR_REQUEST else WRITE_LIMIT)
      ensures s != NULL ==> request[s].dev < 0
      ensures forall k: nat | s < k < (if cmd == READ then NR_REQUEST else WRITE_LIMIT) :: request[k].dev >= 0
    {
      s := if cmd == READ then NR_REQUEST else WRITE_LIMIT;
      s := s - 1;
      while s >= 0 && request[s].dev >= 0
        invariant -1 <= s < (if cmd == READ then NR_REQUEST else WRITE_LIMIT)
        invariant forall k: nat | s < k < (if cmd == READ then NR_REQUEST else WRITE_LIMIT) :: request[k].dev >= 0
      {
        s := s - 1;
      }
    }

    /** Puts slot s behind the i-th of the queue. */
    method LinkAfter(s: nat, tmp: nat, ghost i: nat)
      requires Valid() && i < |slots| && tmp == slots[i] && s < NR_REQUEST && s !in slots
      requires Busy(request[s], s, buffer[..]) && Unqueued(request[..], slots, request[s].bh)
      requires request[s].dev / 256 == major
      modifies this`slots, request
      ensures Valid()
      ensures slots == InsertAfter(old(slots), i, s) && Gained(old(slots), slots, s)
      ensures OnlyAt(old(request[..]), request[..], old(slots), s)
      ensures Queue() == old(Queue())[..i + 1] + [old(request[s].Sort())] + old(Queue())[i + 1..]
    {
      InsertChained(request[..], slots, i, s);
      InsertFilled(request[..], slots, buffer[..], i, s);
      InsertKeys(request[..], slots, i, s);
      request[s] := request[s].(next := request[tmp].next);
      request[tmp] := request[tmp].(next := s);
      slots := InsertAfter(slots, i, s);
      assert request[..] == LinkedAfter(old(request[..]), tmp, s);
    }

    /** The search of add_request for a place behind the current request. */
    method InsertSorted(s: nat)
      requires Valid() && slots != [] && s < NR_REQUEST && s !in slots
      requires Busy(request[s], s, buffer[..]) && Unqueued(request[..], slots, request[s].bh)
      requires request[s].dev / 256 == major
      modifies this`slots, request
      ensures Valid() && Gained(old(slots), slots, s)
      ensures OnlyAt(old(request[..]), request[..], old(slots), s)
      ensures Queue() == Insert(old(Queue()), old(request[s].Sort()))
    {
      hide OnlyAt, Gained;
      var tmp := current;
      var r := request[s].Sort();
      ghost var i: nat, q := 0, Queue();
      assert q[..0] + Insert(q[0..], r) == Insert(q, r);
      assert NextOf(slots, 0) == request[tmp].next;
      while request[tmp].next != NULL && !Fits(request[tmp].Sort(), r, request[request[tmp].next].Sort())
        invariant Valid() && request[..] == old(request[..]) && slots == old(slots)
        invariant q == Queue() && i < |slots| && tmp == slots[i] && tmp < NR_REQUEST
        invariant request[tmp].next == NextOf(slots, i)
        invariant Insert(q, r) == q[..i] + Insert(q[i..], r)
        decreases |slots| - i
      {
        Passes(q, i, r);
        tmp := request[tmp].next;
        i := i + 1;
        assert request[tmp].next == NextOf(slots, i);
      }
      Stops(q, i, r);
      LinkAfter(s, tmp, i);
    }

    /** add_request: the queue becomes what Insert makes of it, and the buffer is clean. */
    method AddRequest(s: nat)
      requires Valid() && s < NR_REQUEST && s !in slots
      requires Busy(request[s], s, buffer[..]) && Unqueued(request[..], slots, request[s].bh)
      requires request[s].dev / 256 == major
      modifies this, request, buffer
      ensures Valid() && Gained(old(slots), slots, s)
      ensures OnlyAt(old(request[..]), request[..], old(slots), s)
      ensures Queue() == Insert(old(Queue()), old(request[s].Sort()))
      ensures buffer[..] == Cleaned(old(buffer[..]), old(request[s].bh))
    {
      request[s] := request[s].(next := NULL);
      var bh := request[s].bh;
      buffer[bh] := buffer[bh].(dirty := false);
      Unlinked(old(request[..]), request[..], slots, old(buffer[..]), buffer[..], s);
      if current == NULL {
        current := s;
        slots := [s];
      } else {
        InsertSorted(s);
      }
    }

    /** end_request: the current request is done, its slot free and its buffer unlocked. */
    method EndRequest(uptodate: bool) returns (warning: bool)
      requires Valid() && slots != []
      modifies this, request, buffer
      ensures Valid() && !warning && Untouched(old(request[..]), request[..], old(slots))
      ensures slots == old(slots)[1..] && Queue() == old(Queue())[1..]
      ensures request[old(slots)[0]].dev < 0
      ensures var bh := old(request[slots[0]].bh);
        buffer[..] == old(buffer[..])[bh := old(buffer[bh]).(uptodate := uptodate, locked := false)]
    {
      assert NextOf(slots, 0) == request[slots[0]].next;
      assert Busy(request[..][slots[0]], slots[0], buffer[..]);
      PopQueue(request[..], slots, buffer[..], uptodate);
      hide Filled, Serves;
      var bh := request[current].bh;
      buffer[bh] := buffer[bh].(uptodate := uptodate);
      warning := !buffer[bh].locked;
      buffer[bh] := buffer[bh].(locked := false);
      request[current] := request[current].(dev := -1);
      current := request[current].next;
      slots := slots[1..];
      assert request[..] == Freed(old(request[..]), old(slots)[0]);
      assert buffer[..] == Finished(old(buffer[..]), bh, uptodate);
    }

    /** make_request. LockWait: to be called again when the buffer is unlocked. */
    method MakeRequest(rw: Command, bh: nat) returns (r: Outcome)
      requires Valid() && bh < buffer.Length && buffer[bh].dev / 256 == major
      modifies this, request, buffer
      ensures Valid() && Untouched(old(request[..]), request[..], old(slots)) && Joined(old(request[..]), old(slots))
      ensures old(buffer[bh]).locked ==> r == if rw.Ahead() then Dropped else LockWait
      ensures !old(buffer[bh]).locked ==> !r.LockWait?
      ensures !old(buffer[bh]).locked ==>
        (r == Needless <==> if rw.Read? || rw.ReadAhead? then old(buffer[bh]).uptodate else !old(buffer[bh]).dirty)
      ensures !old(buffer[bh]).locked && r != Needless ==>
        if exists s: nat :: s < (if rw.Read? || rw.ReadAhead? then 32 else 21) && old(request[..])[s].dev < 0
        then r == Queued else r == if rw.Ahead() then Dropped else SlotWait
      ensures r == Queued ==>
        var key := Key(if rw.Read? || rw.ReadAhead? then 0 else 1, old(buffer[bh]).dev, 2 * old(buffer[bh]).block);
        Queue() == Insert(old(Queue()), key) && key !in old(Queue())
      ensures r != Queued ==> Queue() == old(Queue())
      ensures buffer[..] == if old(buffer[bh]).locked then old(buffer[..])
        else old(buffer[..])[bh := After(r, old(buffer[bh]))]
      ensures r == SlotWait ==> Owned(bh)
    {
      hide Chained, Filled, Serves, Unqueued;
      if rw.Ahead() && buffer[bh].locked {
        return Dropped;
      }
      if buffer[bh].locked {
        return LockWait;
      }
      ghost var bs := buffer[..];
      UnlockedUnqueued(request[..], slots, buffer[..], bh);
      buffer[bh] := buffer[bh].(locked := true);
      if !Wanted(rw.Plain(), buffer[bh]) {
        buffer[bh] := buffer[bh].(locked := false);
        assert buffer[..] == bs;
        return Needless;
      }
      LockChange(request[..], slots, bs, buffer[..], bh);
      r := Enqueue(rw, bh);
    }

    /** make_request from where it looks for a slot. SlotWait: to be called again when a slot is free. */
    method Enqueue(rw: Command, bh: nat) returns (r: Outcome)
      requires Valid() && Owned(bh) && Wanted(rw.Plain(), buffer[bh]) && buffer[bh].dev / 256 == major
      modifies this, request, buffer
      ensures Valid() && Untouched(old(request[..]), request[..], old(slots)) && Joined(old(request[..]), old(slots))
      ensures r == Queued || r == if rw.Ahead() then Dropped else SlotWait
      ensures r == Queued <==>
        exists s: nat :: s < (if rw.Read? || rw.ReadAhead? then 32 else 21) && old(request[..])[s].dev < 0
      ensures r == Queued ==>
        var key := Key(if rw.Read? || rw.ReadAhead? then 0 else 1, old(buffer[bh]).dev, 2 * old(buffer[bh]).block);
        Queue() == Insert(old(Queue()), key) && key !in old(Queue())
      ensures r != Queued ==> Queue() == old(Queue())
      ensures buffer[..] == old(buffer[..])[bh := After(r, old(buffer[bh]))]
      ensures r == SlotWait ==> Owned(bh)
    {
      ghost var rs, bs := request[..], buffer[..];
      var s := FindSlot(rw.Plain());
      if s == NULL {
        if rw.Ahead() {
          buffer[bh] := buffer[bh].(locked := false);
          LockChange(request[..], slots, bs, buffer[..], bh);
          return Dropped;
        }
        assert buffer[..] == bs;
        return SlotWait;
      }
      assert rs[s].dev < 0;
      Fill(s, rw.Plain(), bh);
      r := Queued;
    }

    /** A free slot takes a request for the buffer and goes to the queue. */
    method Fill(s: nat, cmd: nat, bh: nat)
      requires Valid() && Owned(bh) && (cmd == READ || cmd == WRITE) && s < SlotLimit(cmd) && request[s].dev < 0
      requires buffer[bh].dev / 256 == major
      modifies this, request, buffer
      ensures Valid() && Untouched(old(request[..]), request[..], old(slots)) && Joined(old(request[..]), old(slots))
      ensures Queue() == Insert(old(Queue()), KeyFor(cmd, old(buffer[bh])))
      ensures KeyFor(cmd, old(buffer[bh])) !in old(Queue())
      ensures buffer[..] == Cleaned(old(buffer[..]), bh)
    {
      ghost var rs, bs := request[..], buffer[..];
      FreeNotQueued(rs, slots, bs, s);
      request[s] := Request(buffer[bh].dev, cmd, 2 * buffer[bh].block, bh, NULL);
      Unlinked(rs, request[..], slots, bs, bs, s);
      NewKey(bh, request[s]);
      AddRequest(s);
    }
  }

  lemma FreeNotQueued(rs: seq<Request>, slots: seq<nat>, bs: seq<BufferHead>, s: nat)
    requires Filled(rs, slots, bs) && s < |rs| && rs[s].dev < 0
    ensures s !in slots
  {
    forall i: nat | i < |slots| ensures slots[i] != s {
      assert Busy(rs[slots[i]], slots[i], bs);
    }
  }

  function SlotLimit(cmd: nat): nat {
    if cmd == READ then NR_REQUEST else WRITE_LIMIT
  }

  predicate Wanted(cmd: nat, b: BufferHead) {
    if cmd == WRITE then b.dirty else !b.uptodate
  }

  function KeyFor(cmd: nat, b: BufferHead): Key {
    Key(cmd, b.dev, 2 * b.block)
  }

  /** An unlocked buffer after make_request: a queued one is locked and no longer dirty, one that waits
      for a slot stays locked, and otherwise it is let go. */
  function After(r: Outcome, b: BufferHead): BufferHead {
    match r
    case Queued => b.(locked := true, dirty := false)
    case SlotWait => b.(locked := true)
    case _ => b.(locked := false)
  }

  lemma PopQueue(rs: seq<Request>, slots: seq<nat>, bs: seq<BufferHead>, uptodate: bool)
    requires Chained(rs, slots) && Filled(rs, slots, bs) && slots != [] && OneBufferEach(bs)
    ensures var fs, cs := Freed(rs, slots[0]), Finished(bs, rs[slots[0]].bh, uptodate);
      && Chained(fs, slots[1..]) && Filled(fs, slots[1..], cs) && OneBufferEach(cs)
      && (forall major: nat :: Serves(rs, slots, major) ==> Serves(fs, slots[1..], major))
      && Keys(fs, slots[1..]) == Keys(rs, slots)[1..]
  {
    var fs, n := Freed(rs, slots[0]), slots[1..];
    assert forall i: nat {:trigger n[i]} | i < |n| :: n[i] == slots[i + 1] && n[i] < |fs| && fs[n[i]] == rs[n[i]];
    assert forall i: nat {:trigger NextOf(n, i)} | i < |n| :: NextOf(n, i) == NextOf(slots, i + 1);
    PopFilled(rs, slots, bs, uptodate);
    hide Serves;
  }

  lemma PopFilled(rs: seq<Request>, slots: seq<nat>, bs: seq<BufferHead>, uptodate: bool)
    requires Chained(rs, slots) && Filled(rs, slots, bs) && slots != []
    ensures Filled(Freed(rs, slots[0]), slots[1..], Finished(bs, rs[slots[0]].bh, uptodate))
    ensures forall major: nat :: Serves(rs, slots, major) ==> Serves(Freed(rs, slots[0]), slots[1..], major)
  {
    var fs, cs, n := Freed(rs, slots[0]), Finished(bs, rs[slots[0]].bh, uptodate), slots[1..];
    forall i: nat | i < |n|
      ensures n[i] == slots[i + 1] && n[i] < |fs| && fs[n[i]] == rs[n[i]] && Busy(fs[n[i]], n[i], cs)
    {
      assert Busy(rs[slots[0]], slots[0], bs) && rs[slots[0]].bh != rs[slots[i + 1]].bh;
    }
  }

  lemma UnlockedUnqueued(rs: seq<Request>, slots: seq<nat>, bs: seq<BufferHead>, bh: nat)
    requires Filled(rs, slots, bs) && bh < |bs| && !bs[bh].locked
    ensures Unqueued(rs, slots, bh)
  {
    forall i: nat | i < |slots| ensures slots[i] < |rs| ==> rs[slots[i]].bh != bh {
      assert Busy(rs[slots[i]], slots[i], bs);
    }
  }

  /** The lock of a buffer that is not in the queue is of no account to it. */
  lemma LockChange(rs: seq<Request>, slots: seq<nat>, bs: seq<BufferHead>, cs: seq<BufferHead>, bh: nat)
    requires Filled(rs, slots, bs) && OneBufferEach(bs) && Unqueued(rs, slots, bh) && bh < |bs|
    requires |cs| == |bs| && cs == bs[bh := bs[bh].(locked := cs[bh].locked)]
    ensures Filled(rs, slots, cs) && OneBufferEach(cs)
  {
    forall i: nat | i < |slots| ensures slots[i] < |rs| && Busy(rs[slots[i]], slots[i], cs) {
      assert Busy(rs[slots[i]], slots[i], bs);
    }
  }

  function Freed(rs: seq<Request>, s: nat): seq<Request> {
    if s < |rs| then rs[s := rs[s].(dev := -1)] else rs
  }

  function Finished(bs: seq<BufferHead>, bh: int, uptodate: bool): seq<BufferHead> {
    if 0 <= bh < |bs| then bs[bh := bs[bh].(uptodate := uptodate, locked := false)] else bs
  }

  function Cleaned(bs: seq<BufferHead>, bh: int): seq<BufferHead> {
    if 0 <= bh < |bs| then bs[bh := bs[bh].(dirty := false)] else bs
  }

  /** A slot outside the queue and the dirty marks of buffers are of no account to the queue. */
  lemma Unlinked(rs: seq<Request>, fs: seq<Request>, slots: seq<nat>, bs: seq<BufferHead>, cs: seq<BufferHead>, s: nat)
    requires Chained(rs, slots) && Filled(rs, slots, bs) && s !in slots && s < |rs| == |fs|
    requires forall x: nat | x < |rs| && x != s :: fs[x] == rs[x]
    requires |cs| == |bs|
    requires forall b: nat | b < |bs| ::
      cs[b].dev == bs[b].dev && cs[b].block == bs[b].block && (bs[b].locked ==> cs[b].locked)
    ensures Chained(fs, slots) && Filled(fs, slots, cs) && Keys(fs, slots) == Keys(rs, slots)
    ensures forall major: nat :: Serves(rs, slots, major) ==> Serves(fs, slots, major)
    ensures OneBufferEach(bs) ==> OneBufferEach(cs)
    ensures forall bh: nat :: Unqueued(rs, slots, bh) ==> Unqueued(fs, slots, bh)
  {
    assert forall i: nat | i < |slots| :: slots[i] != s;
  }

  // ---------------------------------------------------------------- several drivers

  /** The queue of another driver whose entries and buffers are as they were. */
  lemma OtherQueue(rs: seq<Request>, fs: seq<Request>, mine: seq<nat>, slots: seq<nat>, bs: seq<BufferHead>,
                   cs: seq<BufferHead>, major: nat, bh: nat)
    requires Chained(rs, slots) && Filled(rs, slots, bs) && Serves(rs, slots, major) && Untouched(rs, fs, mine)
    requires forall x: nat :: x !in mine || x !in slots
    requires bh < |bs| && bs[bh].dev / 256 != major && |cs| == |bs| && cs == bs[bh := cs[bh]]
    ensures Chained(fs, slots) && Filled(fs, slots, cs) && Serves(fs, slots, major)
    ensures Keys(fs, slots) == Keys(rs, slots)
  {
    forall i: nat | i < |slots|
      ensures slots[i] < |rs| && fs[slots[i]] == rs[slots[i]] && Busy(fs[slots[i]], slots[i], cs)
    {
      assert Busy(rs[slots[i]], slots[i], bs) && slots[i] in slots;
    }
    assert forall i: nat {:trigger NextOf(slots, i)} | i < |slots| :: fs[slots[i]].next == NextOf(slots, i);
  }

  /** make_request for one driver leaves the queue of another alone, though it may take the last free slot. */
  method MakeRequestBeside(d: Driver, other: Driver, rw: Command, bh: nat) returns (r: Outcome)
    requires d.Valid() && other.Valid() && d.Beside(other) && bh < d.buffer.Length && d.buffer[bh].dev / 256 == d.major
    modifies d, d.request, d.buffer
    ensures d.Valid() && other.Valid() && d.Beside(other) && other.Queue() == old(other.Queue())
  {
    ghost var rs, bs := d.request[..], d.buffer[..];
    forall x: nat | x in other.slots ensures x < NR_REQUEST && rs[x].dev >= 0 {
      var i := IndexOf(other.slots, x);
      assert Busy(rs[other.slots[i]], other.slots[i], bs);
    }
    r := d.MakeRequest(rw, bh);
    OtherQueue(rs, d.request[..], old(d.slots), other.slots, bs, d.buffer[..], other.major, bh);
  }

  /** And so does end_request. */
  method EndRequestBeside(d: Driver, other: Driver, uptodate: bool) returns (warning: bool)
    requires d.Valid() && other.Valid() && d.Beside(other) && d.slots != []
    modifies d, d.request, d.buffer
    ensures d.Valid() && other.Valid() && d.Beside(other) && other.Queue() == old(other.Queue()) && !warning
  {
    ghost var rs, bs := d.request[..], d.buffer[..];
    assert Busy(rs[d.slots[0]], d.slots[0], bs);
    ghost var bh := rs[d.slots[0]].bh;
    warning := d.EndRequest(uptodate);
    OtherQueue(rs, d.request[..], old(d.slots), other.slots, bs, d.buffer[..], other.major, bh);
  }
}
