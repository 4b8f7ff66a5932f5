// add_timer and do_timer of kernel/sched.c: 64 linked slots, each holding the ticks after its
// predecessor's deadline, against the lists of deadlines of TimerSpec.

module Timers {
  import opened Kernel
  import opened TimerSpec
  import opened Sequences

  /** An entry of timer_list[]; next is an index or NULL. */
  datatype Slot = Slot(jiffies: int, fn: nat, next: int)

  datatype Cell = Cell(jiffies: int, fn: nat)

  /** The delta encoding: every cell counts from the deadline before it. */
  function Cells(ts: seq<Timer>, base: int): (r: seq<Cell>)
    ensures |r| == |ts|
  {
    if ts == [] then [] else [Cell(ts[0].due - base, ts[0].fn)] + Cells(ts[1..], ts[0].due)
  }

  /** One exchange of the sorting loop. */
  function Exchange(c: Cell, d: Cell): (Cell, Cell) {
    (d, Cell(c.jiffies - d.jiffies, c.fn))
  }

  /** The loop of add_timer from the cell c on, and the correction after it. */
  function Sink(c: Cell, cells: seq<Cell>): (r: seq<Cell>)
    ensures |r| == |cells| + 1
    decreases |cells|
  {
    if cells == [] then [c]
    else if cells[0].jiffies < c.jiffies then
      [Exchange(c, cells[0]).0] + Sink(Exchange(c, cells[0]).1, cells[1..])
    else
      [c, Cell(cells[0].jiffies - c.jiffies, cells[0].fn)] + cells[1..]
  }

  function Exchanged(cells: seq<Cell>, k: nat): seq<Cell>
    requires k + 1 < |cells|
  {
    cells[k := Exchange(cells[k], cells[k + 1]).0][k + 1 := Exchange(cells[k], cells[k + 1]).1]
  }

  function Corrected(cells: seq<Cell>, k: nat): seq<Cell>
    requires k + 1 < |cells|
  {
    cells[k + 1 := Cell(cells[k + 1].jiffies - cells[k].jiffies, cells[k + 1].fn)]
  }

  lemma SinkStep(cells: seq<Cell>, k: nat)
    requires k + 1 < |cells| && cells[k + 1].jiffies < cells[k].jiffies
    ensures var e := Exchanged(cells, k);
      cells[..k] + Sink(cells[k], cells[k + 1..]) == e[..k + 1] + Sink(e[k + 1], e[k + 2..])
  {
    var e := Exchanged(cells, k);
    assert cells[k + 1..][0] == cells[k + 1] && cells[k + 1..][1..] == cells[k + 2..] == e[k + 2..];
    assert e[..k + 1] == cells[..k] + [cells[k + 1]];
  }

  lemma SinkEnd(cells: seq<Cell>, k: nat)
    requires k < |cells| && (k + 1 < |cells| ==> cells[k + 1].jiffies >= cells[k].jiffies)
    ensures cells[..k] + Sink(cells[k], cells[k + 1..]) == if k + 1 < |cells| then Corrected(cells, k) else cells
  {
    if k + 1 < |cells| {
      assert cells[k + 1..][0] == cells[k + 1] && cells[k + 1..][1..] == cells[k + 2..];
      assert Corrected(cells, k)[k + 2..] == cells[k + 2..];
    }
  }

  /** Sinking a cell through the deltas is inserting its deadline among the deadlines. */
  lemma {:induction false} SinkInserts(ts: seq<Timer>, t: Timer, base: int)
    ensures Sink(Cell(t.due - base, t.fn), Cells(ts, base)) == Cells(Insert(ts, t), base)
    decreases |ts|
  {
    if ts != [] {
      assert Cells(ts, base)[1..] == Cells(ts[1..], ts[0].due);
      if ts[0].due < t.due {
        SinkInserts(ts[1..], t, ts[0].due);
        assert Insert(ts, t)[1..] == Insert(ts[1..], t);
      } else {
        assert Insert(ts, t)[1..] == ts;
        assert [Cell(ts[0].due - t.due, ts[0].fn)] + Cells(ts, base)[1..] == Cells(ts, t.due);
      }
    } else {
      assert Cells([t], base) == [Cell(t.due - base, t.fn)];
    }
  }

  /** A tick shortens the first cell only, and so every deadline. */
  lemma {:induction false} OlderCells(ts: seq<Timer>, base: int)
    ensures Cells(Older(ts), base) == Cells(ts, base + 1)
    decreases |ts|
  {
    if ts != [] {
      OlderCells(ts[1..], ts[0].due - 1);
      assert Older(ts)[1..] == Older(ts[1..]);
    }
  }

  function Next(slots: seq<nat>, k: nat): int {
    if k + 1 < |slots| then slots[k + 1] else NULL
  }

  class TimerList {
    const list: array<Slot>
    var nextTimer: int
    ghost var slots: seq<nat>
    ghost var state: State

    ghost predicate Linked()
      reads this, list
    {
      && list.Length == TIME_REQUESTS
      && Distinct(slots) && (forall k: nat | k < |slots| :: slots[k] < TIME_REQUESTS)
      && nextTimer == (if slots == [] then NULL else slots[0])
      && (forall k: nat {:trigger Next(slots, k)} | k < |slots| :: list[slots[k]].next == Next(slots, k))
    }

    /** The chain from nextTimer holds these cells, and the slots off the chain are free. */
    ghost predicate Holds(cells: seq<Cell>)
      reads this, list
    {
      && Linked() && |slots| == |cells|
      && (forall k: nat | k < |slots| :: Cell(list[slots[k]].jiffies, list[slots[k]].fn) == cells[k])
      && (forall p: nat | p < TIME_REQUESTS :: p !in slots ==> list[p].fn == 0)
    }

    ghost predicate Valid()
      reads this, list
    {
      Holds(Cells(state.ts, 0)) && Ordered(state)
    }

    constructor ()
      ensures Valid() && state == State([], 0)
      ensures fresh(list)
    {
      list := new Slot[TIME_REQUESTS](i => Slot(0, 0, NULL));
      nextTimer := NULL;
      slots := [];
      state := State([], 0);
    }

    /** The first free slot, TIME_REQUESTS if all are taken. */
    method FindFree(ghost cells: seq<Cell>) returns (p: nat)
      requires Holds(cells) && forall k: nat | k < |cells| :: cells[k].fn != 0
      ensures p <= TIME_REQUESTS
      ensures p == TIME_REQUESTS <==> |cells| >= TIME_REQUESTS
      ensures p < TIME_REQUESTS ==> p !in slots
    {
      p := 0;
      while p < TIME_REQUESTS && list[p].fn != 0
        invariant p <= TIME_REQUESTS
        invariant forall q: nat | q < p :: list[q].fn != 0
      {
        p := p + 1;
      }
      AllOf(slots, TIME_REQUESTS);
      assert forall k: nat | k < |slots| :: list[slots[k]].fn != 0 by {
        hide Distinct, Linked;
        assert forall k: nat | k < |slots| :: Cell(list[slots[k]].jiffies, list[slots[k]].fn).fn == cells[k].fn;
      }
      if p == TIME_REQUESTS {
        assert forall q: nat | q < TIME_REQUESTS :: q in slots;
        assert |slots| == TIME_REQUESTS;
      } else {
        assert p !in slots;
        assert |slots| != TIME_REQUESTS;
      }
    }

    /** The new timer goes to the front of the chain. */
    method LinkFirst(p: nat, f: nat, due: int, ghost cells: seq<Cell>)
      requires Holds(cells) && p < TIME_REQUESTS && p !in slots
      modifies this`nextTimer, this`slots, list
      ensures Holds([Cell(due, f)] + cells) && slots == [p] + old(slots)
    {
      list[p] := list[p].(fn := f);
      list[p] := list[p].(jiffies := due);
      list[p] := list[p].(next := nextTimer);
      nextTimer := p;
      slots := [p] + slots;
      forall k: nat | k < |slots|
        ensures Cell(list[slots[k]].jiffies, list[slots[k]].fn) == ([Cell(due, f)] + cells)[k]
        ensures list[slots[k]].next == Next(slots, k)
      {
        if k > 0 { assert slots[k] == old(slots)[k - 1] && Next(slots, k) == Next(old(slots), k - 1); }
      }
    }

    /** The body of the sorting loop. */
    method MoveDown(p: nat, ghost k: nat, ghost cells: seq<Cell>) returns (q: nat)
      requires Holds(cells) && k + 1 < |cells| && p == slots[k]
      modifies list
      ensures q == slots[k + 1]
      ensures Holds(Exchanged(cells, k))
    {
      assert list[p].next == Next(slots, k);
      q := list[p].next;
      list[p] := list[p].(jiffies := list[p].jiffies - list[q].jiffies);
      var f := list[p].fn;
      list[p] := list[p].(fn := list[q].fn);
      list[q] := list[q].(fn := f);
      var j := list[p].jiffies;
      list[p] := list[p].(jiffies := list[q].jiffies);
      list[q] := list[q].(jiffies := j);
    }

    method Subtract(p: nat, ghost k: nat, ghost cells: seq<Cell>)
      requires Holds(cells) && k + 1 < |cells| && p == slots[k]
      modifies list
      ensures Holds(Corrected(cells, k))
    {
      assert list[p].next == Next(slots, k);
      var q := list[p].next;
      list[q] := list[q].(jiffies := list[q].jiffies - list[p].jiffies);
    }

    /** The sorting loop and the correction after it. */
    method Sort(ghost c: Cell, ghost rest: seq<Cell>)
      requires Holds([c] + rest)
      modifies list
      ensures Holds(Sink(c, rest))
    {
      var p := nextTimer;
      assert list[p].next == Next(slots, 0);
      ghost var k: nat, cells := 0, [c] + rest;
      assert cells[..0] + Sink(cells[0], cells[1..]) == Sink(c, rest) by {
        assert cells[1..] == rest;
      }
      while list[p].next != NULL && list[list[p].next].jiffies < list[p].jiffies
        invariant Holds(cells) && k < |cells| && p == slots[k] && list[p].next == Next(slots, k)
        invariant cells[..k] + Sink(cells[k], cells[k + 1..]) == Sink(c, rest)
        decreases |cells| - k
      {
        SinkStep(cells, k);
        p := MoveDown(p, k, cells);
        cells := Exchanged(cells, k);
        k := k + 1;
        assert list[p].next == Next(slots, k);
      }
      SinkEnd(cells, k);
      if list[p].next != NULL && list[list[p].next].jiffies >= list[p].jiffies {
        Subtract(p, k, cells);
      }
    }

    /** add_timer with a positive delay; ok is false where it panics for want of a slot. */
    method Place(due: int, f: nat) returns (ok: bool)
      requires Valid() && due > 0 && f != 0
      modifies this, list
      ensures Valid()
      ensures ok == (|old(state).ts| < TIME_REQUESTS) && ok == Link(old(state), due, f).Some?
      ensures state == if ok then Link(old(state), due, f).value else old(state)
    {
      hide Sorted, Unique, Insert, Sink, Holds, Pending;
      ghost var cells := Cells(state.ts, 0);
      CellsFn(state.ts, 0);
      var p := FindFree(cells);
      if p == TIME_REQUESTS {
        return false;
      }
      ok := true;
      LinkFirst(p, f, due, cells);
      Sort(Cell(due, f), cells);
      SinkInserts(state.ts, Timer(due, f, state.nextId), 0);
      LinkKeeps(state, due, f);
      BecomeState(Link(state, due, f).value);
    }

    ghost method BecomeState(s: State)
      requires Holds(Cells(s.ts, 0)) && Ordered(s)
      modifies this`state
      ensures Valid() && state == s
    {
      state := s;
    }

    /** A handler: it adds timers, one after the other. */
    method RunHandler(h: Handlers, f: nat) returns (ok: bool)
      requires Valid()
      modifies this, list
      ensures Valid()
      ensures ok == LinkAll(old(state), h(f)).Some?
      ensures ok ==> state == LinkAll(old(state), h(f)).value
    {
      var adds := h(f);
      var i := 0;
      while i < |adds|
        invariant 0 <= i <= |adds| && Valid()
        invariant LinkAll(state, adds[i..]) == LinkAll(old(state), adds)
      {
        assert adds[i..][0] == adds[i] && adds[i..][1..] == adds[i + 1..];
        ok := Place(adds[i].0, adds[i].1);
        if !ok { return; }
        i := i + 1;
      }
      ok := true;
    }

    method AddTimer(due: int, f: nat, h: Handlers) returns (ok: bool)
      requires Valid()
      modifies this, list
      ensures Valid()
      ensures ok == Added(old(state), due, f, h).Some?
      ensures ok ==> state == Added(old(state), due, f, h).value
    {
      if f == 0 {
        return true;
      }
      if due <= 0 {
        ok := RunHandler(h, f);
      } else {
        ok := Place(due, f);
      }
    }

    /** Takes the first timer off the chain and frees its slot. */
    method Pop() returns (f: nat)
      requires Valid() && nextTimer != NULL && list[nextTimer].jiffies <= 0
      modifies this, list
      ensures Valid()
      ensures old(state).ts != [] && old(state).ts[0].due == 0 && f == old(state).ts[0].fn
      ensures state == State(old(state).ts[1..], old(state).nextId)
    {
      ghost var ts := state.ts;
      assert ts[0].due == 0;
      f := list[nextTimer].fn;
      list[nextTimer] := list[nextTimer].(fn := 0);
      assert list[nextTimer].next == Next(slots, 0);
      nextTimer := list[nextTimer].next;
      slots := slots[1..];
      assert forall k: nat {:trigger Next(slots, k)} | k < |slots| :: Next(slots, k) == Next(old(slots), k + 1);
      PopKeeps(state);
      state := State(ts[1..], state.nextId);
      assert Holds(Cells(ts, 0)[1..]);
    }

    /** The first timer has one tick less to go. */
    method Age()
      requires Valid() && Good(state)
      modifies this`state, list
      ensures Valid() && state == old(state).(ts := Older(old(state).ts))
    {
      if nextTimer != NULL {
        list[nextTimer] := list[nextTimer].(jiffies := list[nextTimer].jiffies - 1);
      }
      OlderCells(state.ts, 0);
      OlderOrdered(state);
      state := state.(ts := Older(state.ts));
    }

    /** The body of the loop of do_timer: one timer is taken off and its handler run. */
    method FireFirst(h: Handlers) returns (ok: bool, ghost c: Call)
      requires Valid() && nextTimer != NULL && list[nextTimer].jiffies <= 0
      modifies this, list
      ensures Valid()
      ensures !ok ==> Fire(old(state), h).None?
      ensures ok ==> Expired(state.ts) < Expired(old(state).ts) && Fire(old(state), h) == Then([c], Fire(state, h))
    {
      ghost var s := state;
      var f := Pop();
      ExpiredLinkAll(state, h(f));
      c := Call(s.ts[0].id, f);
      ok := RunHandler(h, f);
    }

    /** The timer part of do_timer; ok is false if a handler finds no free slot. */
    method DoTimer(h: Handlers) returns (ok: bool, ghost calls: seq<Call>)
      requires Valid() && Good(state)
      modifies this, list
      ensures Valid()
      ensures ok == Tick(old(state), h).Some?
      ensures ok ==> Good(state) && Fired(state, calls) == Tick(old(state), h).value
    {
      Age();
      calls := [];
      ok := true;
      ThenNothing(Fire(state, h));
      while nextTimer != NULL && list[nextTimer].jiffies <= 0
        invariant Valid()
        invariant Tick(old(state), h) == Then(calls, Fire(state, h))
        decreases Expired(state.ts)
      {
        ghost var c;
        ok, c := FireFirst(h);
        if !ok { return; }
        ThenThen(calls, [c], Fire(state, h));
        calls := calls + [c];
      }
      assert Fire(state, h) == Some(Fired(state, []));
      TickExactIfAny(old(state), h);
    }
  }

  /** The timers that fired first, then those of r. */
  function Then(calls: seq<Call>, r: Option<Fired>): Option<Fired> {
    if r.None? then None else Some(Fired(r.value.s, calls + r.value.calls))
  }

  lemma ThenNothing(r: Option<Fired>)
    ensures Then([], r) == r
  {
    if r.Some? { assert [] + r.value.calls == r.value.calls; }
  }

  lemma ThenThen(a: seq<Call>, b: seq<Call>, r: Option<Fired>)
    ensures Then(a, Then(b, r)) == Then(a + b, r)
  {
    if r.Some? { assert a + (b + r.value.calls) == (a + b) + r.value.calls; }
  }

  lemma TickExactIfAny(s: State, h: Handlers)
    requires Good(s)
    ensures Tick(s, h).Some? ==> Good(Tick(s, h).value.s)
  {
    if Tick(s, h).Some? { TickExact(s, h); }
  }

  lemma {:induction false} CellsFn(ts: seq<Timer>, base: int)
    ensures forall k: nat | k < |ts| :: Cells(ts, base)[k].fn == ts[k].fn
    decreases |ts|
  {
    if ts != [] { CellsFn(ts[1..], ts[0].due); }
  }
}
