// The order in which kernel/blk_drv/ll_rw_blk.c serves requests for buffers: IN_ORDER, the insertion
// of add_request, and what is known of every run.

module ElevatorSpec {
  import opened Sequences

  datatype Key = Key(cmd: nat, dev: nat, sector: nat)

  /** IN_ORDER: reads before writes, then by device, then by sector. */
  predicate InOrder(a: Key, b: Key) {
    a.cmd < b.cmd || (a.cmd == b.cmd && (a.dev < b.dev || (a.dev == b.dev && a.sector < b.sector)))
  }

  /** The first request is being served and keeps its place. */
  function Insert(q: seq<Key>, r: Key): (n: seq<Key>)
    ensures |n| == |q| + 1
    ensures q != [] ==> n[0] == q[0]
    decreases |q|
  {
    if q == [] then [r]
    else if |q| == 1 then [q[0], r]
    else if (InOrder(q[0], r) || !InOrder(q[0], q[1])) && InOrder(r, q[1]) then [q[0], r] + q[1..]
    else [q[0]] + Insert(q[1..], r)
  }

  /** How often the order is broken from one request to the next; one more than the number of sweeps. */
  function Descents(q: seq<Key>): nat {
    if |q| <= 1 then 0 else (if InOrder(q[0], q[1]) then 0 else 1) + Descents(q[1..])
  }

  /** A sweep: reads come before writes, and on each device the sectors ascend. */
  lemma {:induction false} SweepAscends(q: seq<Key>, i: nat, j: nat)
    requires Descents(q) == 0 && i < j < |q|
    ensures q[i].cmd <= q[j].cmd
    ensures q[i].cmd == q[j].cmd ==> q[i].dev <= q[j].dev
    ensures q[i].cmd == q[j].cmd && q[i].dev == q[j].dev ==> q[i].sector < q[j].sector
    decreases |q|
  {
    if i > 0 {
      SweepAscends(q[1..], i - 1, j - 1);
    } else if j > 1 {
      SweepAscends(q[1..], 0, j - 1);
    }
  }

  /** Of two requests for different blocks, or a read and a write, one comes before the other. */
  lemma OrderTotal(a: Key, b: Key)
    ensures a != b <==> InOrder(a, b) || InOrder(b, a)
    ensures !(InOrder(a, b) && InOrder(b, a))
  {
  }

  /** Insertion puts the new request somewhere behind the first and leaves the others in their order. */
  lemma {:induction false} InsertKeepsOrder(q: seq<Key>, r: Key) returns (k: nat)
    ensures k <= |q| && (q != [] ==> k > 0)
    ensures Insert(q, r) == q[..k] + [r] + q[k..]
    decreases |q|
  {
    if q == [] || |q| == 1 {
      k := |q|;
    } else if (InOrder(q[0], r) || !InOrder(q[0], q[1])) && InOrder(r, q[1]) {
      k := 1;
    } else {
      var j := InsertKeepsOrder(q[1..], r);
      k := j + 1;
      assert q[..k] == [q[0]] + q[1..][..j] && q[k..] == q[1..][j..];
    }
  }

  lemma InsertDistinct(q: seq<Key>, r: Key)
    requires Distinct(q) && r !in q
    ensures Distinct(Insert(q, r))
    ensures forall x: Key :: x in Insert(q, r) <==> x == r || x in q
  {
    var k := InsertKeepsOrder(q, r);
    var n := Insert(q, r);
    assert q == q[..k] + q[k..];
    assert n[k] == r && (forall i: nat | i < k :: n[i] == q[i]) && (forall i: nat | k < i < |n| :: n[i] == q[i - 1]);
  }

  /** A new request breaks the order only if nothing breaks it yet and it belongs before the first. */
  lemma {:induction false} InsertDescents(q: seq<Key>, r: Key)
    requires r !in q && Distinct(q)
    ensures Descents(Insert(q, r)) == Descents(q)
         || (Descents(q) == 0 && Descents(Insert(q, r)) == 1 && InOrder(r, q[0]))
    decreases |q|
  {
    if |q| > 1 {
      var n := Insert(q, r);
      if (InOrder(q[0], r) || !InOrder(q[0], q[1])) && InOrder(r, q[1]) {
        assert n[1..] == [r] + q[1..] && n[1..][1..] == q[1..];
      } else {
        InsertDescents(q[1..], r);
        assert n[1..] == Insert(q[1..], r);
      }
    } else if |q| == 1 {
      assert Insert(q, r)[1..] == [r];
    }
  }

  // ---------------------------------------------------------------- runs

  datatype Event = Add(key: Key) | Serve

  /** Requests for the same block are never in the queue together: the buffer is locked meanwhile. */
  ghost predicate Possible(q: seq<Key>, run: seq<Event>)
    decreases |run|
  {
    run == [] ||
    match run[0]
    case Add(k) => k !in q && Possible(Insert(q, k), run[1..])
    case Serve => q != [] && Possible(q[1..], run[1..])
  }

  datatype History = History(queue: seq<Key>, served: seq<Key>)

  function Run(q: seq<Key>, run: seq<Event>): History
    decreases |run|
  {
    if run == [] then History(q, [])
    else
      match run[0]
      case Add(k) => Run(Insert(q, k), run[1..])
      case Serve =>
        if q == [] then Run(q, run[1..])
        else var h := Run(q[1..], run[1..]); History(h.queue, [q[0]] + h.served)
  }

  /** Every reachable queue is at most two sweeps. */
  lemma {:induction false} AtMostOneDescent(q: seq<Key>, run: seq<Event>)
    requires Distinct(q) && Descents(q) <= 1 && Possible(q, run)
    ensures var h := Run(q, run); Distinct(h.queue) && Descents(h.queue) <= 1
    decreases |run|
  {
    if run != [] {
      match run[0]
      case Add(k) =>
        InsertDistinct(q, k);
        InsertDescents(q, k);
        AtMostOneDescent(Insert(q, k), run[1..]);
      case Serve =>
        AtMostOneDescent(q[1..], run[1..]);
    }
  }

  /** The queue up to w. */
  function Upto(q: seq<Key>, w: Key): (p: seq<Key>)
    ensures q != [] ==> p != [] && p[0] == q[0]
  {
    if q == [] then [] else if q[0] == w then [w] else [q[0]] + Upto(q[1..], w)
  }

  /** A newcomer may get ahead of w but does not break the order before w once more. */
  lemma {:induction false} InsertBefore(q: seq<Key>, w: Key, r: Key)
    requires w in q && r != w
    ensures Descents(Upto(Insert(q, r), w)) <= Descents(Upto(q, w))
    decreases |q|
  {
    var n := Insert(q, r);
    if q[0] != w {
      var t := q[1..];
      assert Upto(q, w)[1..] == Upto(t, w);
      assert Upto(n, w)[1..] == Upto(n[1..], w);
      if |q| > 1 && (InOrder(q[0], r) || !InOrder(q[0], q[1])) && InOrder(r, q[1]) {
        assert n[1..] == [r] + t && n[1..][1..] == t;
        assert Upto([r] + t, w)[1..] == Upto(t, w);
      } else {
        assert n[1..] == Insert(t, r);
        InsertBefore(t, w, r);
      }
    }
  }

  /** While w waits, all that is served and all that is still ahead of it makes at most as many sweeps
      as were ahead of it at first. */
  lemma {:induction false} WaitingSweeps(q: seq<Key>, run: seq<Event>, w: Key)
    requires Possible(q, run) && w in q && w !in Run(q, run).served
    ensures var h := Run(q, run); var all := h.served + Upto(h.queue, w);
      && w in h.queue && all[0] == q[0] && Descents(all) <= Descents(Upto(q, w))
    decreases |run|
  {
    hide InOrder, Insert;
    var h := Run(q, run);
    if run == [] {
      assert h.served + Upto(q, w) == Upto(q, w);
    } else {
      match run[0]
      case Add(k) =>
        InsertIn(q, k);
        InsertBefore(q, w, k);
        WaitingSweeps(Insert(q, k), run[1..], w);
      case Serve =>
        var t := Run(q[1..], run[1..]);
        assert h.served == [q[0]] + t.served;
        assert q[0] in h.served;
        WaitingSweeps(q[1..], run[1..], w);
        hide Possible, Run;
        FirstServed(q, t.served + Upto(t.queue, w), w);
        assert h.served + Upto(h.queue, w) == [q[0]] + (t.served + Upto(t.queue, w));
    }
  }

  /** The first request goes before what follows it. */
  lemma FirstServed(q: seq<Key>, rest: seq<Key>, w: Key)
    requires w in q && q[0] != w && rest != [] && rest[0] == q[1] && Descents(rest) <= Descents(Upto(q[1..], w))
    ensures Descents([q[0]] + rest) <= Descents(Upto(q, w))
  {
    hide InOrder;
    assert ([q[0]] + rest)[1..] == rest;
    assert Upto(q, w)[1..] == Upto(q[1..], w);
  }

  lemma InsertIn(q: seq<Key>, r: Key)
    ensures forall x: Key :: x in q ==> x in Insert(q, r)
  {
    var k := InsertKeepsOrder(q, r);
    assert q == q[..k] + q[k..];
  }

  /** In s sweeps every key comes at most s times. */
  lemma {:induction false} OncePerSweep(q: seq<Key>, k: Key)
    ensures multiset(q)[k] <= Descents(q) + 1
    ensures q != [] && InOrder(k, q[0]) ==> multiset(q)[k] <= Descents(q)
    decreases |q|
  {
    if q != [] {
      assert q == [q[0]] + q[1..];
      OncePerSweep(q[1..], k);
    }
  }

  /** Nobody starves: from any reachable queue, as long as w waits, no key is served more than twice
      ahead of it, however many requests come in. */
  lemma OvertakenAtMostTwice(before: seq<Event>, after: seq<Event>, w: Key, k: Key)
    requires Possible([], before) && Possible(Run([], before).queue, after)
    requires w in Run([], before).queue && w !in Run(Run([], before).queue, after).served
    ensures multiset(Run(Run([], before).queue, after).served)[k] <= 2
  {
    var q := Run([], before).queue;
    var h := Run(q, after);
    AtMostOneDescent([], before);
    WaitingSweeps(q, after, w);
    UptoDescents(q, w);
    OncePerSweep(h.served + Upto(h.queue, w), k);
  }

  lemma {:induction false} UptoDescents(q: seq<Key>, w: Key)
    ensures Descents(Upto(q, w)) <= Descents(q)
  {
    if q != [] && q[0] != w {
      UptoDescents(q[1..], w);
      assert Upto(q, w)[1..] == Upto(q[1..], w);
    }
  }
}
