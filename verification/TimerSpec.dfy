// The timer list of kernel/sched.c: deltas between successive deadlines, in 64 linked slots, against
// plain lists of deadlines.

module TimerSpec {
  import opened Kernel

  const TIME_REQUESTS: nat := 64

  /** due: ticks left. fn: the handler, 0 for none. id tells timers apart; the code has no such field. */
  datatype Timer = Timer(due: int, fn: nat, id: nat)

  /** What each handler adds when it runs at a certain moment: delays and handlers. The handlers of the source
      re-arm themselves with positive delays only. */
  type Handlers = h: nat -> seq<(int, nat)> | forall f: nat, i: nat :: i < |h(f)| ==> h(f)[i].0 > 0 && h(f)[i].1 != 0
    ghost witness (_ => [])

  ghost predicate Sorted(ts: seq<Timer>) {
    forall i: nat, j: nat | i < j < |ts| :: ts[i].due <= ts[j].due
  }

  /** Before the first timer that is not due earlier. */
  function Insert(ts: seq<Timer>, t: Timer): seq<Timer> {
    if ts == [] || ts[0].due >= t.due then [t] + ts else [ts[0]] + Insert(ts[1..], t)
  }

  function Earlier(ts: seq<Timer>, due: int): nat {
    if ts == [] || ts[0].due >= due then 0 else 1 + Earlier(ts[1..], due)
  }

  lemma {:induction false} InsertSplit(ts: seq<Timer>, t: Timer)
    ensures Earlier(ts, t.due) <= |ts|
    ensures Insert(ts, t) == ts[..Earlier(ts, t.due)] + [t] + ts[Earlier(ts, t.due)..]
  {
    if ts != [] && ts[0].due < t.due {
      InsertSplit(ts[1..], t);
      var k := Earlier(ts[1..], t.due);
      assert ts[..k + 1] == [ts[0]] + ts[1..][..k] && ts[k + 1..] == ts[1..][k..];
    } else {
      assert ts[..0] + [t] + ts[0..] == [t] + ts;
    }
  }

  lemma {:induction false} EarlierAt(ts: seq<Timer>, due: int)
    requires Sorted(ts)
    ensures Earlier(ts, due) <= |ts|
    ensures forall i: nat | i < |ts| :: ts[i].due < due <==> i < Earlier(ts, due)
  {
    if ts != [] && ts[0].due < due {
      EarlierAt(ts[1..], due);
      forall i: nat | i < |ts| ensures ts[i].due < due <==> i < Earlier(ts, due) {
        if i > 0 { assert ts[i] == ts[1..][i - 1]; }
      }
    }
  }

  /** n is ts with t put in at place k. */
  ghost predicate PutAt(ts: seq<Timer>, t: Timer, k: nat, n: seq<Timer>) {
    && k <= |ts| && |n| == |ts| + 1 && n[k] == t
    && (forall i: nat | i < k :: n[i] == ts[i])
    && (forall i: nat | k < i <= |ts| :: n[i] == ts[i - 1])
  }

  /** The new timer comes after those due earlier and before the rest, whose deadlines are unchanged. */
  lemma InsertAt(ts: seq<Timer>, t: Timer)
    requires Sorted(ts)
    ensures PutAt(ts, t, Earlier(ts, t.due), Insert(ts, t))
    ensures forall i: nat | i < |ts| :: ts[i].due < t.due <==> i < Earlier(ts, t.due)
    ensures Sorted(Insert(ts, t))
  {
    InsertSplit(ts, t);
    EarlierAt(ts, t.due);
    var k, n := Earlier(ts, t.due), Insert(ts, t);
    assert forall i: nat | i < k :: n[i] == ts[i];
    assert forall i: nat | k < i <= |ts| :: n[i] == ts[i - 1];
    PutSorted(ts, t, k, n);
  }

  lemma PutSorted(ts: seq<Timer>, t: Timer, k: nat, n: seq<Timer>)
    requires Sorted(ts) && PutAt(ts, t, k, n)
    requires forall i: nat | i < |ts| :: ts[i].due < t.due <==> i < k
    ensures Sorted(n)
  {
    forall i: nat, j: nat | i < j < |n| ensures n[i].due <= n[j].due {
      if j <= k {
        assert n[i] == ts[i];
      } else if i >= k {
        assert n[j] == ts[j - 1];
      } else {
        assert n[i] == ts[i] && n[j] == ts[j - 1];
      }
    }
  }

  /** A state: the pending timers and the next unused id. */
  datatype State = State(ts: seq<Timer>, nextId: nat)

  ghost predicate Good(s: State) {
    && Sorted(s.ts)
    && (forall i: nat | i < |s.ts| :: s.ts[i].due > 0 && s.ts[i].fn != 0 && s.ts[i].id < s.nextId)
    && Unique(s.ts)
  }

  ghost predicate Unique(ts: seq<Timer>) {
    forall i: nat, j: nat | i < j < |ts| :: ts[i].id != ts[j].id
  }

  /** One timer more; None is the panic of add_timer when all slots are taken. */
  function Link(s: State, due: int, fn: nat): Option<State> {
    if |s.ts| >= TIME_REQUESTS then None
    else Some(State(Insert(s.ts, Timer(due, fn, s.nextId)), s.nextId + 1))
  }

  function LinkAll(s: State, adds: seq<(int, nat)>): Option<State>
    decreases |adds|
  {
    if adds == [] then Some(s)
    else
      var r := Link(s, adds[0].0, adds[0].1);
      if r.None? then None else LinkAll(r.value, adds[1..])
  }

  function Expired(ts: seq<Timer>): nat {
    if ts == [] then 0 else (if ts[0].due <= 0 then 1 else 0) + Expired(ts[1..])
  }

  lemma {:induction false} ExpiredInsert(ts: seq<Timer>, t: Timer)
    requires t.due > 0
    ensures Expired(Insert(ts, t)) == Expired(ts)
  {
    if ts != [] && ts[0].due < t.due {
      ExpiredInsert(ts[1..], t);
      assert Insert(ts, t)[1..] == Insert(ts[1..], t);
    } else {
      assert Insert(ts, t)[1..] == ts;
    }
  }

  lemma {:induction false} ExpiredLinkAll(s: State, adds: seq<(int, nat)>)
    requires forall i: nat | i < |adds| :: adds[i].0 > 0
    ensures LinkAll(s, adds).Some? ==> Expired(LinkAll(s, adds).value.ts) == Expired(s.ts)
    decreases |adds|
  {
    if adds != [] {
      ExpiredInsert(s.ts, Timer(adds[0].0, adds[0].1, s.nextId));
      if Link(s, adds[0].0, adds[0].1).Some? {
        ExpiredLinkAll(Link(s, adds[0].0, adds[0].1).value, adds[1..]);
      }
    }
  }

  /** A handler run, and the timer it was run for. */
  datatype Call = Call(id: nat, fn: nat)

  function CallOf(t: Timer): Call { Call(t.id, t.fn) }

  /** What a tick runs: the handlers called, in order, and what is pending afterwards. */
  datatype Fired = Fired(s: State, calls: seq<Call>)

  /** Fires while the first timer is due; its handler runs right away and may add timers. */
  function Fire(s: State, h: Handlers): (r: Option<Fired>)
    decreases Expired(s.ts)
  {
    if s.ts == [] || s.ts[0].due > 0 then Some(Fired(s, []))
    else
      var rest := State(s.ts[1..], s.nextId);
      ExpiredLinkAll(rest, h(s.ts[0].fn));
      match LinkAll(rest, h(s.ts[0].fn))
      case None => None
      case Some(s') =>
        match Fire(s', h)
        case None => None
        case Some(r) => Some(Fired(r.s, [CallOf(s.ts[0])] + r.calls))
  }

  function Older(ts: seq<Timer>): seq<Timer> {
    seq(|ts|, i requires 0 <= i < |ts| => ts[i].(due := ts[i].due - 1))
  }

  function Tick(s: State, h: Handlers): Option<Fired> {
    Fire(s.(ts := Older(s.ts)), h)
  }

  /** What the handlers of the timers now due will add, in order. */
  function AddsOf(ts: seq<Timer>, h: Handlers): seq<(int, nat)> {
    if ts == [] || ts[0].due > 0 then [] else h(ts[0].fn) + AddsOf(ts[1..], h)
  }

  /** Every addition of every due timer is among them. */
  lemma {:induction false} AddsOfHas(ts: seq<Timer>, h: Handlers, j: nat, i: nat)
    requires Sorted(ts) && j < |ts| && ts[j].due <= 0 && i < |h(ts[j].fn)|
    ensures exists k: nat :: k < |AddsOf(ts, h)| && AddsOf(ts, h)[k] == h(ts[j].fn)[i]
  {
    if j == 0 {
      assert AddsOf(ts, h)[i] == h(ts[0].fn)[i];
    } else {
      assert ts[0].due <= ts[j].due && ts[1..][j - 1] == ts[j];
      AddsOfHas(ts[1..], h, j - 1, i);
      var k: nat :| k < |AddsOf(ts[1..], h)| && AddsOf(ts[1..], h)[k] == h(ts[j].fn)[i];
      assert AddsOf(ts, h)[|h(ts[0].fn)| + k] == h(ts[j].fn)[i];
    }
  }

  lemma {:induction false} AddsOfPositive(ts: seq<Timer>, h: Handlers)
    ensures forall i: nat | i < |AddsOf(ts, h)| :: AddsOf(ts, h)[i].0 > 0 && AddsOf(ts, h)[i].1 != 0
  {
    if ts != [] && ts[0].due <= 0 { AddsOfPositive(ts[1..], h); }
  }

  lemma {:induction false} AddsOfInsert(ts: seq<Timer>, t: Timer, h: Handlers)
    requires t.due > 0
    ensures AddsOf(Insert(ts, t), h) == AddsOf(ts, h)
  {
    if ts != [] && ts[0].due < t.due {
      AddsOfInsert(ts[1..], t, h);
      assert Insert(ts, t)[1..] == Insert(ts[1..], t);
    }
  }

  lemma {:induction false} AddsOfLinkAll(s: State, adds: seq<(int, nat)>, h: Handlers)
    requires forall i: nat | i < |adds| :: adds[i].0 > 0
    ensures LinkAll(s, adds).Some? ==> AddsOf(LinkAll(s, adds).value.ts, h) == AddsOf(s.ts, h)
    decreases |adds|
  {
    if adds != [] {
      AddsOfInsert(s.ts, Timer(adds[0].0, adds[0].1, s.nextId), h);
      if Link(s, adds[0].0, adds[0].1).Some? {
        AddsOfLinkAll(Link(s, adds[0].0, adds[0].1).value, adds[1..], h);
      }
    }
  }

  // ---------------------------------------------------------------- in which order

  /** The handlers of the timers now due, as the list has them. */
  function DueCalls(ts: seq<Timer>): seq<Call> {
    if ts == [] || ts[0].due > 0 then [] else [CallOf(ts[0])] + DueCalls(ts[1..])
  }

  lemma {:induction false} DueInsert(ts: seq<Timer>, t: Timer)
    requires t.due > 0
    ensures DueCalls(Insert(ts, t)) == DueCalls(ts)
  {
    if ts != [] && ts[0].due < t.due {
      DueInsert(ts[1..], t);
      assert Insert(ts, t)[1..] == Insert(ts[1..], t);
    }
  }

  lemma {:induction false} DueLinkAll(s: State, adds: seq<(int, nat)>)
    requires forall i: nat | i < |adds| :: adds[i].0 > 0
    ensures LinkAll(s, adds).Some? ==> DueCalls(LinkAll(s, adds).value.ts) == DueCalls(s.ts)
    decreases |adds|
  {
    if adds != [] {
      DueInsert(s.ts, Timer(adds[0].0, adds[0].1, s.nextId));
      if Link(s, adds[0].0, adds[0].1).Some? { DueLinkAll(Link(s, adds[0].0, adds[0].1).value, adds[1..]); }
    }
  }

  /** The timers due fire in the order of the list, whatever their handlers add. */
  lemma FiredInOrder(s: State, h: Handlers)
    requires Sorted(s.ts) && Fire(s, h).Some?
    ensures var calls := Fire(s, h).value.calls;
      && |calls| <= |s.ts| && (forall i: nat | i < |s.ts| :: s.ts[i].due <= 0 <==> i < |calls|)
      && forall i: nat | i < |calls| :: calls[i] == CallOf(s.ts[i])
  {
    DueCallsAt(s.ts);
    FiredDue(s, h);
  }

  lemma {:induction false} FiredDue(s: State, h: Handlers)
    requires Fire(s, h).Some?
    ensures Fire(s, h).value.calls == DueCalls(s.ts)
    decreases Expired(s.ts)
  {
    if s.ts != [] && s.ts[0].due <= 0 {
      var rest := State(s.ts[1..], s.nextId);
      ExpiredLinkAll(rest, h(s.ts[0].fn));
      DueLinkAll(rest, h(s.ts[0].fn));
      FiredDue(LinkAll(rest, h(s.ts[0].fn)).value, h);
    }
  }

  lemma {:induction false} DueCallsAt(ts: seq<Timer>)
    requires Sorted(ts)
    ensures |DueCalls(ts)| <= |ts|
    ensures forall i: nat | i < |ts| :: ts[i].due <= 0 <==> i < |DueCalls(ts)|
    ensures forall i: nat | i < |DueCalls(ts)| :: DueCalls(ts)[i] == CallOf(ts[i])
  {
    if ts != [] && ts[0].due <= 0 {
      DueCallsAt(ts[1..]);
      assert forall i: nat | 0 < i < |ts| :: ts[i] == ts[1..][i - 1];
    }
  }

  // ---------------------------------------------------------------- every timer fires exactly on time

  /** Timer c.id is to run its handler c.fn in so many ticks. */
  ghost predicate Pending(s: State, c: Call, due: int) {
    exists i: nat :: i < |s.ts| && CallOf(s.ts[i]) == c && s.ts[i].due == due
  }

  /** Sorted, ids distinct and used up, as while a tick is being processed. */
  ghost predicate Ordered(s: State) {
    Sorted(s.ts) && Unique(s.ts) && forall i: nat | i < |s.ts| ::
      s.ts[i].id < s.nextId && s.ts[i].fn != 0 && s.ts[i].due >= 0
  }

  lemma LinkKeeps(s: State, due: int, fn: nat)
    requires Ordered(s) && due > 0 && fn != 0 && Link(s, due, fn).Some?
    ensures var s' := Link(s, due, fn).value;
      && Ordered(s') && s'.nextId == s.nextId + 1 && Pending(s', Call(s.nextId, fn), due)
      && (Good(s) ==> Good(s'))
      && forall c: Call, d: int | c.id < s.nextId :: Pending(s', c, d) <==> Pending(s, c, d)
  {
    hide Insert, Earlier, Sorted, Unique;
    var t := Timer(due, fn, s.nextId);
    InsertAt(s.ts, t);
    PutOrdered(s, t, Earlier(s.ts, due), Insert(s.ts, t));
    PutPending(s, t, Earlier(s.ts, due), Insert(s.ts, t));
  }

  lemma PutPending(s: State, t: Timer, k: nat, n: seq<Timer>)
    requires PutAt(s.ts, t, k, n) && t.id == s.nextId
    ensures Pending(State(n, s.nextId + 1), CallOf(t), t.due)
    ensures forall c: Call, d: int | c.id < s.nextId :: Pending(State(n, s.nextId + 1), c, d) <==> Pending(s, c, d)
  {
    forall c: Call, d: int | c.id < s.nextId
      ensures Pending(State(n, s.nextId + 1), c, d) <==> Pending(s, c, d)
    {
      if i: nat :| i < |s.ts| && CallOf(s.ts[i]) == c && s.ts[i].due == d {
        assert n[if i < k then i else i + 1] == s.ts[i];
      }
      if i: nat :| i < |n| && CallOf(n[i]) == c && n[i].due == d {
        assert n[i] == s.ts[if i < k then i else i - 1];
      }
    }
  }

  lemma PutOrdered(s: State, t: Timer, k: nat, n: seq<Timer>)
    requires Ordered(s) && t.due > 0 && t.fn != 0 && t.id == s.nextId && PutAt(s.ts, t, k, n) && Sorted(n)
    ensures Ordered(State(n, s.nextId + 1))
    ensures Good(s) ==> Good(State(n, s.nextId + 1))
  {
    hide Sorted;
    assert forall i: nat | i < |n| && i != k :: n[i] == s.ts[if i < k then i else i - 1];
    forall i: nat, j: nat | i < j < |n| ensures n[i].id != n[j].id {
      if i != k && j != k { assert (if i < k then i else i - 1) < (if j < k then j else j - 1); }
    }
  }

  /** The timers a handler adds get the next ids in order, and are pending with the delays and
      handlers asked for. */
  ghost predicate AllPending(s: State, id: nat, adds: seq<(int, nat)>) {
    forall i: nat | i < |adds| :: Pending(s, Call(id + i, adds[i].1), adds[i].0)
  }

  lemma {:induction false} LinkAllKeeps(s: State, adds: seq<(int, nat)>)
    requires Ordered(s) && forall i: nat | i < |adds| :: adds[i].0 > 0 && adds[i].1 != 0
    requires LinkAll(s, adds).Some?
    ensures var s' := LinkAll(s, adds).value;
      && Ordered(s') && s'.nextId == s.nextId + |adds| && AllPending(s', s.nextId, adds)
      && (forall c: Call, d: int | c.id < s.nextId :: Pending(s', c, d) <==> Pending(s, c, d))
    decreases |adds|
  {
    if adds != [] {
      LinkKeeps(s, adds[0].0, adds[0].1);
      var s1 := Link(s, adds[0].0, adds[0].1).value;
      LinkAllKeeps(s1, adds[1..]);
      var s' := LinkAll(s, adds).value;
      forall i: nat | i < |adds| ensures Pending(s', Call(s.nextId + i, adds[i].1), adds[i].0) {
        if i > 0 { assert Pending(s', Call(s1.nextId + (i - 1), adds[1..][i - 1].1), adds[1..][i - 1].0); }
      }
    }
  }

  lemma SameDue(s: State, c: Call, b: Call, d: int, e: int)
    requires Unique(s.ts) && Pending(s, c, d) && Pending(s, b, e) && c.id == b.id
    ensures d == e && c == b
  {
    var i: nat :| i < |s.ts| && CallOf(s.ts[i]) == c && s.ts[i].due == d;
    var j: nat :| j < |s.ts| && CallOf(s.ts[j]) == b && s.ts[j].due == e;
    assert i == j;
  }

  /** r is what firing does in s: exactly the timers due now fire, each once; all others stay, what the
      handlers add is pending with the delays asked for, and nothing is left overdue. */
  ghost predicate FiredExactly(s: State, h: Handlers, r: Fired) {
    && Good(r.s) && r.s.nextId == s.nextId + |AddsOf(s.ts, h)| && AllPending(r.s, s.nextId, AddsOf(s.ts, h))
    && (forall c: Call :: c in r.calls <==> Pending(s, c, 0))
    && (forall i: nat, j: nat | i < j < |r.calls| :: r.calls[i] != r.calls[j])
    && (forall c: Call, d: int | c.id < s.nextId && d > 0 :: Pending(r.s, c, d) <==> Pending(s, c, d))
  }

  lemma {:induction false} FireExact(s: State, h: Handlers)
    requires Ordered(s) && Fire(s, h).Some?
    ensures FiredExactly(s, h, Fire(s, h).value)
    decreases Expired(s.ts)
  {
    if s.ts == [] || s.ts[0].due > 0 {
      forall c: Call ensures !Pending(s, c, 0) {}
    } else {
      var adds := h(s.ts[0].fn);
      var rest := State(s.ts[1..], s.nextId);
      PopKeeps(s);
      ExpiredLinkAll(rest, adds);
      LinkAllKeeps(rest, adds);
      AddsOfLinkAll(rest, adds, h);
      var s1 := LinkAll(rest, adds).value;
      FireOne(s, h, rest, s1);
      FireExact(s1, h);
      FreshPositive(s1, s.nextId, adds);
      hide Fire, LinkAll, Pending, Good, Sorted, Unique;
      FirstIds(s, rest, s1, h, Fire(s1, h).value);
      FirstAdds(s, s1, h, Fire(s1, h).value);
      FirstOthers(s, rest, s1, h, Fire(s1, h).value);
    }
  }

  /** From the timers after the first to all of them: who fires, */
  lemma FirstIds(s: State, rest: State, s1: State, h: Handlers, r: Fired)
    requires Ordered(s) && s.ts != [] && s.ts[0].due == 0 && rest == State(s.ts[1..], s.nextId)
    requires forall c: Call, d: int | c.id < s.nextId :: Pending(s1, c, d) <==> Pending(rest, c, d)
    requires forall c: Call, d: int | c.id >= s.nextId && Pending(s1, c, d) :: d > 0
    requires FiredExactly(s1, h, r)
    ensures var calls := [CallOf(s.ts[0])] + r.calls;
      && (forall c: Call :: c in calls <==> Pending(s, c, 0))
      && (forall i: nat, j: nat | i < j < |calls| :: calls[i] != calls[j])
  {
    FirstLast(s, rest, s1);
    hide AddsOf, Good, Pending, Ordered;
    var calls := [CallOf(s.ts[0])] + r.calls;
    forall c: Call ensures c in calls <==> Pending(s, c, 0) {
      assert c in calls <==> c == CallOf(s.ts[0]) || c in r.calls;
    }
    forall i: nat, j: nat | i < j < |calls| ensures calls[i] != calls[j] {
      assert calls[j] == r.calls[j - 1] && calls[j] in r.calls;
      if i > 0 { assert calls[i] == r.calls[i - 1]; }
    }
  }

  /** what has been added, */
  lemma FirstAdds(s: State, s1: State, h: Handlers, r: Fired)
    requires s.ts != [] && s.ts[0].due <= 0 && AddsOf(s1.ts, h) == AddsOf(s.ts[1..], h)
    requires s1.nextId == s.nextId + |h(s.ts[0].fn)| && AllPending(s1, s.nextId, h(s.ts[0].fn))
    requires FiredExactly(s1, h, r)
    ensures r.s.nextId == s.nextId + |AddsOf(s.ts, h)| && AllPending(r.s, s.nextId, AddsOf(s.ts, h))
  {
    var adds, more := h(s.ts[0].fn), AddsOf(s1.ts, h);
    assert AddsOf(s.ts, h) == adds + more;
    hide AddsOf, Good, Pending;
    var all: seq<(int, nat)> := adds + more;
    forall i: nat | i < |all| ensures Pending(r.s, Call(s.nextId + i, all[i].1), all[i].0) {
      if i < |adds| {
        assert Pending(s1, Call(s.nextId + i, adds[i].1), adds[i].0);
      } else {
        assert Pending(r.s, Call(s1.nextId + (i - |adds|), more[i - |adds|].1), more[i - |adds|].0);
      }
    }
  }

  /** and who stays. */
  lemma FirstOthers(s: State, rest: State, s1: State, h: Handlers, r: Fired)
    requires Ordered(s) && s.ts != [] && s.ts[0].due == 0 && rest == State(s.ts[1..], s.nextId)
    requires forall c: Call, d: int | c.id < s.nextId :: Pending(s1, c, d) <==> Pending(rest, c, d)
    requires forall c: Call, d: int | c.id >= s.nextId && Pending(s1, c, d) :: d > 0
    requires FiredExactly(s1, h, r) && s1.nextId >= s.nextId
    ensures forall c: Call, d: int | c.id < s.nextId && d > 0 :: Pending(r.s, c, d) <==> Pending(s, c, d)
  {
    FirstLast(s, rest, s1);
    hide AddsOf, Good, Pending, Ordered;
    forall c: Call, d: int | c.id < s.nextId && d > 0 ensures Pending(r.s, c, d) <==> Pending(s, c, d) {
      assert Pending(r.s, c, d) <==> Pending(s1, c, d);
    }
  }

  lemma FireOne(s: State, h: Handlers, rest: State, s1: State)
    requires s.ts != [] && s.ts[0].due <= 0 && Fire(s, h).Some?
    requires rest == State(s.ts[1..], s.nextId) && LinkAll(rest, h(s.ts[0].fn)) == Some(s1)
    ensures Fire(s1, h).Some?
    ensures Fire(s, h).value == Fired(Fire(s1, h).value.s, [CallOf(s.ts[0])] + Fire(s1, h).value.calls)
  {
  }

  /** Timers just added are not due. */
  lemma FreshPositive(s: State, first: nat, adds: seq<(int, nat)>)
    requires Ordered(s) && s.nextId == first + |adds| && AllPending(s, first, adds)
    requires forall i: nat | i < |adds| :: adds[i].0 > 0
    ensures forall c: Call, d: int | c.id >= first && Pending(s, c, d) :: d > 0
  {
    forall c: Call, d: int | c.id >= first && Pending(s, c, d) ensures d > 0 {
      assert c.id < s.nextId;
      var b := Call(first + (c.id - first), adds[c.id - first].1);
      assert Pending(s, b, adds[c.id - first].0);
      SameDue(s, c, b, d, adds[c.id - first].0);
    }
  }

  /** The timers due after the first has fired. */
  lemma FirstLast(s: State, rest: State, s1: State)
    requires Ordered(s) && s.ts != [] && s.ts[0].due == 0 && rest == State(s.ts[1..], s.nextId)
    requires forall c: Call, d: int | c.id < s.nextId :: Pending(s1, c, d) <==> Pending(rest, c, d)
    requires forall c: Call, d: int | c.id >= s.nextId && Pending(s1, c, d) :: d > 0
    ensures forall c: Call :: c == CallOf(s.ts[0]) || Pending(s1, c, 0) <==> Pending(s, c, 0)
    ensures !Pending(s1, CallOf(s.ts[0]), 0)
    ensures forall c: Call, d: int | c.id < s.nextId && d > 0 :: Pending(s1, c, d) <==> Pending(s, c, d)
  {
    PopKeeps(s);
    hide Sorted, Unique;
    forall c: Call ensures c == CallOf(s.ts[0]) || Pending(s1, c, 0) <==> Pending(s, c, 0) {
      if Pending(s, c, 0) { assert c.id < s.nextId; }
    }
  }

  lemma PopKeeps(s: State)
    requires Ordered(s) && s.ts != [] && s.ts[0].due == 0
    ensures var rest := State(s.ts[1..], s.nextId);
      && Ordered(rest) && (forall d: int :: !Pending(rest, CallOf(s.ts[0]), d)) && Pending(s, CallOf(s.ts[0]), 0)
      && forall c: Call, d: int | c != CallOf(s.ts[0]) :: Pending(rest, c, d) <==> Pending(s, c, d)
    ensures forall d: int | d > 0 :: !Pending(s, CallOf(s.ts[0]), d)
  {
    var rest := State(s.ts[1..], s.nextId);
    forall c: Call, d: int | c != CallOf(s.ts[0]) ensures Pending(rest, c, d) <==> Pending(s, c, d) {
      if Pending(s, c, d) {
        var i: nat :| i < |s.ts| && CallOf(s.ts[i]) == c && s.ts[i].due == d;
        assert s.ts[i] == rest.ts[i - 1];
      }
      if Pending(rest, c, d) {
        var i: nat :| i < |rest.ts| && CallOf(rest.ts[i]) == c && rest.ts[i].due == d;
        assert s.ts[i + 1] == rest.ts[i];
      }
    }
  }

  // ---------------------------------------------------------------- whole runs

  /** With each event comes what the handlers would add at that moment: it may be different every time. */
  datatype Event = TimerTick(h: Handlers) | Add(due: int, fn: nat, h: Handlers)

  /** The state after a run, and for each tick of it the handlers called. */
  datatype History = History(s: State, log: seq<seq<Call>>)

  /** add_timer: without delay the handler runs at once; without a handler nothing happens. */
  function Added(s: State, due: int, fn: nat, h: Handlers): Option<State> {
    if fn == 0 then Some(s) else if due <= 0 then LinkAll(s, h(fn)) else Link(s, due, fn)
  }

  function Run(s: State, events: seq<Event>): Option<History>
    decreases |events|
  {
    if events == [] then Some(History(s, []))
    else match events[0]
      case Add(due, fn, h) =>
        var r := Added(s, due, fn, h);
        if r.None? then None else Run(r.value, events[1..])
      case TimerTick(h) =>
        var r := Tick(s, h);
        if r.None? then None
        else
          var rest := Run(r.value.s, events[1..]);
          if rest.None? then None else Some(History(rest.value.s, [r.value.calls] + rest.value.log))
  }

  lemma OlderOrdered(s: State)
    requires Good(s)
    ensures Ordered(s.(ts := Older(s.ts)))
    ensures forall c: Call, d: int :: Pending(s.(ts := Older(s.ts)), c, d) <==> Pending(s, c, d + 1)
  {
    var o := s.(ts := Older(s.ts));
    forall c: Call, d: int ensures Pending(o, c, d) <==> Pending(s, c, d + 1) {
      if Pending(s, c, d + 1) {
        var i: nat :| i < |s.ts| && CallOf(s.ts[i]) == c && s.ts[i].due == d + 1;
        assert CallOf(o.ts[i]) == c && o.ts[i].due == d;
      }
    }
  }

  /** What the handlers run by the next tick add. */
  function NewAt(s: State, h: Handlers): seq<(int, nat)> {
    AddsOf(Older(s.ts), h)
  }

  lemma TickExact(s: State, h: Handlers)
    requires Good(s) && Tick(s, h).Some?
    ensures var r := Tick(s, h).value;
      && Good(r.s) && r.s.nextId == s.nextId + |NewAt(s, h)| && AllPending(r.s, s.nextId, NewAt(s, h))
      && (forall c: Call :: c in r.calls <==> Pending(s, c, 1))
      && (forall i: nat, j: nat | i < j < |r.calls| :: r.calls[i] != r.calls[j])
      && (forall c: Call, d: int | c.id < s.nextId && d > 0 :: Pending(r.s, c, d) <==> Pending(s, c, d + 1))
  {
    OlderOrdered(s);
    FireExact(s.(ts := Older(s.ts)), h);
  }

  lemma AddedKeeps(s: State, due: int, fn: nat, h: Handlers)
    requires Good(s) && Added(s, due, fn, h).Some?
    ensures var s' := Added(s, due, fn, h).value;
      && Good(s') && s'.nextId >= s.nextId
      && (forall c: Call, d: int | c.id < s.nextId :: Pending(s', c, d) <==> Pending(s, c, d))
      && (fn != 0 && due > 0 ==> s'.nextId == s.nextId + 1 && Pending(s', Call(s.nextId, fn), due))
      && (fn != 0 && due <= 0 ==> s'.nextId == s.nextId + |h(fn)| && AllPending(s', s.nextId, h(fn)))
  {
    if fn != 0 {
      if due <= 0 { LinkAllGood(s, h(fn)); LinkAllKeeps(s, h(fn)); } else { LinkKeeps(s, due, fn); }
    }
  }

  lemma {:induction false} LinkAllGood(s: State, adds: seq<(int, nat)>)
    requires Good(s) && forall i: nat | i < |adds| :: adds[i].0 > 0 && adds[i].1 != 0
    ensures LinkAll(s, adds).Some? ==> Good(LinkAll(s, adds).value)
    decreases |adds|
  {
    if adds != [] && Link(s, adds[0].0, adds[0].1).Some? {
      LinkKeeps(s, adds[0].0, adds[0].1);
      LinkAllGood(Link(s, adds[0].0, adds[0].1).value, adds[1..]);
    }
  }

  /** A timer that is not pending (because it has fired) never fires again. */
  lemma {:induction false} NeverAgain(s: State, events: seq<Event>, c: Call)
    requires Good(s) && Run(s, events).Some? && c.id < s.nextId && forall d: int :: !Pending(s, c, d)
    ensures forall k: nat | k < |Run(s, events).value.log| :: c !in Run(s, events).value.log[k]
    decreases |events|
  {
    if events != [] {
      match events[0]
      case Add(due, fn, h) =>
        AddedKeeps(s, due, fn, h);
        NeverAgain(Added(s, due, fn, h).value, events[1..], c);
      case TimerTick(h) =>
        TickExact(s, h);
        var r := Tick(s, h).value;
        GoodPositive(r.s, c);
        NeverAgain(r.s, events[1..], c);
    }
  }

  lemma GoodPositive(s: State, c: Call)
    requires Good(s)
    ensures forall d: int | d <= 0 :: !Pending(s, c, d)
  {
  }

  ghost predicate CalledAt(log: seq<seq<Call>>, c: Call, n: int) {
    forall k: nat | k < |log| :: c in log[k] <==> k == n
  }

  /** In the n-th tick of the log (from 0), and in no other, timer c.id fires, and its handler c.fn is called,
      never another. */
  ghost predicate FiresOnly(log: seq<seq<Call>>, c: Call, n: int) {
    CalledAt(log, c, n) && forall b: Call | b.id == c.id && b != c :: CalledAt(log, b, -1)
  }

  /** Exact timers: in every run, whatever is added meanwhile by anyone, a timer with `due` ticks left
      fires on the due-th tick from now and on no other, and runs the handler it was given. */
  lemma FiresExactlyOnTime(s: State, events: seq<Event>, c: Call, due: int)
    requires Good(s) && Run(s, events).Some? && Pending(s, c, due)
    ensures FiresOnly(Run(s, events).value.log, c, due - 1)
  {
    CalledOnTime(s, events, c, due);
    PendingPositive(s, c, due);
    forall b: Call | b.id == c.id && b != c ensures CalledAt(Run(s, events).value.log, b, -1) {
      forall d: int ensures !Pending(s, b, d) {
        if Pending(s, b, d) { SameDue(s, c, b, due, d); }
      }
      NeverAgain(s, events, b);
    }
  }

  lemma {:induction false} CalledOnTime(s: State, events: seq<Event>, c: Call, due: int)
    requires Good(s) && Run(s, events).Some? && Pending(s, c, due)
    ensures CalledAt(Run(s, events).value.log, c, due - 1)
    decreases |events|
  {
    PendingPositive(s, c, due);
    if events != [] {
      match events[0]
      case Add(d, fn, h) =>
        AddedKeeps(s, d, fn, h);
        CalledOnTime(Added(s, d, fn, h).value, events[1..], c, due);
      case TimerTick(h) =>
        TickExact(s, h);
        var r := Tick(s, h).value;
        if due == 1 {
          forall d: int ensures !Pending(r.s, c, d) {
            GoodPositive(r.s, c);
            if d > 0 && Pending(s, c, d + 1) { SameDue(s, c, c, d + 1, due); }
          }
          NeverAgain(r.s, events[1..], c);
        } else {
          assert Pending(r.s, c, due - 1);
          CalledOnTime(r.s, events[1..], c, due - 1);
          if Pending(s, c, 1) { SameDue(s, c, c, 1, due); }
        }
    }
  }

  /** The same for timers added by handlers while a tick is processed: the i-th of them, with delay J, fires
      on the J-th tick after this one and on no other. */
  lemma AddedInTickOnTime(s: State, events: seq<Event>, i: nat)
    requires Good(s) && events != [] && events[0].TimerTick? && Run(s, events).Some? && i < |NewAt(s, events[0].h)|
    ensures var (due, fn) := NewAt(s, events[0].h)[i]; FiresOnly(Run(s, events).value.log, Call(s.nextId + i, fn), due)
  {
    var h := events[0].h;
    hide AddsOf, Fire;
    TickExact(s, h);
    AddsOfPositive(Older(s.ts), h);
    var r := Tick(s, h).value;
    var c, due := Call(s.nextId + i, NewAt(s, h)[i].1), NewAt(s, h)[i].0;
    assert Pending(r.s, c, due);
    FiresExactlyOnTime(r.s, events[1..], c, due);
    var log := Run(s, events).value.log;
    assert log == [r.calls] + Run(r.s, events[1..]).value.log;
    hide CalledAt;
    forall b: Call, n: int | b.id == c.id && CalledAt(Run(r.s, events[1..]).value.log, b, n - 1) && n != 0
      ensures CalledAt(log, b, n)
    {
      NotYet(s, r.calls, b);
      CalledLater(r.calls, Run(r.s, events[1..]).value.log, b, n);
    }
  }

  lemma NotYet(s: State, calls: seq<Call>, b: Call)
    requires Good(s) && b.id >= s.nextId && forall c: Call :: c in calls <==> Pending(s, c, 1)
    ensures b !in calls
  {
    if Pending(s, b, 1) { PendingPositive(s, b, 1); }
  }

  lemma CalledLater(first: seq<Call>, rest: seq<seq<Call>>, b: Call, n: int)
    requires b !in first && n != 0 && CalledAt(rest, b, n - 1)
    ensures CalledAt([first] + rest, b, n)
  {
    var log := [first] + rest;
    assert forall k: nat | 0 < k < |log| :: log[k] == rest[k - 1];
  }

  /** So whatever the handler of a timer now due adds, with delay J, is run by the J-th tick after this one,
      and only by that. */
  lemma HandlersOnTime(s: State, events: seq<Event>, j: nat, i: nat)
    requires Good(s) && events != [] && events[0].TimerTick? && Run(s, events).Some?
    requires j < |s.ts| && s.ts[j].due == 1 && i < |events[0].h(s.ts[j].fn)|
    ensures var (due, fn) := events[0].h(s.ts[j].fn)[i];
      exists id: nat :: id >= s.nextId && FiresOnly(Run(s, events).value.log, Call(id, fn), due)
  {
    hide FiresOnly;
    var h := events[0].h;
    OlderOrdered(s);
    var o := Older(s.ts);
    AddsOfHas(o, h, j, i);
    var n: nat :| n < |AddsOf(o, h)| && AddsOf(o, h)[n] == h(o[j].fn)[i];
    AddedInTickOnTime(s, events, n);
    assert s.nextId + n >= s.nextId && o[j].fn == s.ts[j].fn;
  }

  lemma PendingPositive(s: State, c: Call, due: int)
    requires Good(s) && Pending(s, c, due)
    ensures due > 0 && c.id < s.nextId
  {
  }
}
