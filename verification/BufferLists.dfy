// The lists through the buffer heads of fs/buffer.c: the circular list of all buffers, least recently
// taken first, and the hash chains.

module BufferLists {
  import opened Sequences

  datatype Links = Links(prev: int, next: int, prevFree: int, nextFree: int)

  ghost predicate InRange(s: seq<nat>, n: nat) {
    forall i: nat | i < |s| :: s[i] < n
  }

  lemma AppendDistinct(s: seq<nat>, b: nat)
    requires Distinct(s) && b !in s
    ensures Distinct(s + [b]) && Distinct([b] + s)
  {
  }

  // ---------------------------------------------------------------- the circular list

  function RingNext(ring: seq<nat>, i: nat): int
    requires i < |ring|
  {
    if i + 1 < |ring| then ring[i + 1] else ring[0]
  }

  function RingPrev(ring: seq<nat>, i: nat): int
    requires i < |ring|
  {
    if i > 0 then ring[i - 1] else ring[|ring| - 1]
  }

  ghost predicate Ringed(ls: seq<Links>, ring: seq<nat>, i: nat)
    requires i < |ring|
  {
    ring[i] < |ls| && ls[ring[i]].nextFree == RingNext(ring, i) && ls[ring[i]].prevFree == RingPrev(ring, i)
  }

  ghost predicate RingOk(ls: seq<Links>, ring: seq<nat>) {
    ring != [] && Distinct(ring) && InRange(ring, |ls|) && forall i: nat | i < |ring| :: Ringed(ls, ring, i)
  }

  /** The part of remove_from_queues for the circular list. */
  function Unring(ls: seq<Links>, b: nat): (r: seq<Links>)
    ensures |r| == |ls|
  {
    if b >= |ls| then ls
    else
      var p, n := ls[b].prevFree, ls[b].nextFree;
      var l1 := if 0 <= p < |ls| then ls[p := ls[p].(nextFree := n)] else ls;
      if 0 <= n < |ls| then l1[n := l1[n].(prevFree := p)] else l1
  }

  lemma RingRemove(ls: seq<Links>, ring: seq<nat>, i: nat)
    requires RingOk(ls, ring) && i < |ring| && |ring| > 1
    ensures RingOk(Unring(ls, ring[i]), Cut(ring, i))
    ensures Cut(ring, i)[0] == if i == 0 then ls[ring[0]].nextFree else ring[0]
  {
    var c, m := Cut(ring, i), Unring(ls, ring[i]);
    CutIs(ring, i);
    assert Ringed(ls, ring, i);
    forall j: nat | j < |c| ensures Ringed(m, c, j) {
      RingRemoveAt(ls, ring, i, j);
    }
  }

  lemma RingRemoveAt(ls: seq<Links>, ring: seq<nat>, i: nat, j: nat)
    requires RingOk(ls, ring) && i < |ring| && |ring| > 1 && j < |ring| - 1
    ensures Ringed(Unring(ls, ring[i]), Cut(ring, i), j)
  {
    var k := if j < i then j else j + 1;
    var n := |ring|;
    assert Ringed(ls, ring, i) && Ringed(ls, ring, k);
    var before, after := if i > 0 then i - 1 else n - 1, if i + 1 < n then i + 1 else 0;
    assert ring[k] == ls[ring[i]].prevFree <==> k == before;
    assert ring[k] == ls[ring[i]].nextFree <==> k == after;
  }

  /** The part of insert_into_queues for the circular list: b comes last, before the head f. */
  function Enring(ls: seq<Links>, b: nat, f: int): (r: seq<Links>)
    ensures |r| == |ls|
  {
    if b >= |ls| || !(0 <= f < |ls|) then ls
    else
      var l0 := ls[b := ls[b].(nextFree := f)];
      var l1 := l0[b := l0[b].(prevFree := l0[f].prevFree)];
      var last := l1[f].prevFree;
      var l2 := if 0 <= last < |ls| then l1[last := l1[last].(nextFree := b)] else l1;
      l2[f := l2[f].(prevFree := b)]
  }

  lemma RingAppend(ls: seq<Links>, ring: seq<nat>, b: nat)
    requires RingOk(ls, ring) && b !in ring && b < |ls|
    ensures RingOk(Enring(ls, b, ring[0]), ring + [b])
  {
    var r, m := ring + [b], Enring(ls, b, ring[0]);
    AppendDistinct(ring, b);
    assert Ringed(ls, ring, 0);
    forall j: nat | j < |r| ensures Ringed(m, r, j) {
      if j < |ring| { assert Ringed(ls, ring, j); }
    }
  }

  /** A ring of one buffer is left and entered without any change. */
  lemma RingOfOne(ls: seq<Links>, b: nat)
    requires RingOk(ls, [b])
    ensures b < |ls| && Unring(ls, b) == ls && Enring(ls, b, b) == ls && ls[b].nextFree == b
  {
    assert [b][0] == b;
    assert Ringed(ls, [b], 0);
  }

  // ---------------------------------------------------------------- hash chains

  ghost predicate Hung(ls: seq<Links>, s: seq<nat>, i: nat)
    requires i < |s|
  {
    s[i] < |ls| && ls[s[i]].next == At(s, i + 1) && ls[s[i]].prev == At(s, i - 1)
  }

  ghost predicate ChainOk(ls: seq<Links>, head: int, s: seq<nat>) {
    Distinct(s) && InRange(s, |ls|) && head == At(s, 0) && forall i: nat | i < |s| :: Hung(ls, s, i)
  }

  /** The part of remove_from_queues for the hash chain, the head aside. */
  function Unhash(ls: seq<Links>, b: nat): (r: seq<Links>)
    ensures |r| == |ls|
  {
    if b >= |ls| then ls
    else
      var p, n := ls[b].prev, ls[b].next;
      var l1 := if 0 <= n < |ls| then ls[n := ls[n].(prev := p)] else ls;
      if 0 <= p < |ls| then l1[p := l1[p].(next := n)] else l1
  }

  lemma ChainRemove(ls: seq<Links>, s: seq<nat>, i: nat)
    requires ChainOk(ls, At(s, 0), s) && i < |s|
    ensures ChainOk(Unhash(ls, s[i]), if i == 0 then ls[s[0]].next else s[0], Cut(s, i))
  {
    var c, m := Cut(s, i), Unhash(ls, s[i]);
    CutIs(s, i);
    assert Hung(ls, s, i);
    forall j: nat | j < |c| ensures Hung(m, c, j) {
      ChainRemoveAt(ls, s, i, j);
    }
  }

  lemma ChainRemoveAt(ls: seq<Links>, s: seq<nat>, i: nat, j: nat)
    requires ChainOk(ls, At(s, 0), s) && i < |s| && j < |s| - 1
    ensures Hung(Unhash(ls, s[i]), Cut(s, i), j)
  {
    var k := if j < i then j else j + 1;
    assert Hung(ls, s, i) && Hung(ls, s, k);
    assert s[k] == At(s, i - 1) <==> k == i - 1;
    assert s[k] == At(s, i + 1) <==> k == i + 1;
  }

  /** The part of insert_into_queues for the hash chain with this head. */
  function Enhash(ls: seq<Links>, b: nat, head: int): (r: seq<Links>)
    ensures |r| == |ls|
  {
    if b >= |ls| then ls
    else
      var l1 := ls[b := ls[b].(prev := NULL, next := head)];
      if 0 <= head < |ls| then l1[head := l1[head].(prev := b)] else l1
  }

  lemma ChainPush(ls: seq<Links>, s: seq<nat>, b: nat)
    requires ChainOk(ls, At(s, 0), s) && b !in s && b < |ls|
    ensures ChainOk(Enhash(ls, b, At(s, 0)), b, [b] + s)
  {
    var r, m := [b] + s, Enhash(ls, b, At(s, 0));
    AppendDistinct(s, b);
    forall j: nat | j < |r| ensures Hung(m, r, j) {
      if j > 0 { assert Hung(ls, s, j - 1); }
    }
  }

  /** What happens to the other buffers and to the other two links does not matter. */
  lemma ChainFrame(ls: seq<Links>, ms: seq<Links>, head: int, s: seq<nat>)
    requires ChainOk(ls, head, s) && |ls| == |ms|
    requires forall b: nat | b < |ls| && b in s :: ms[b].prev == ls[b].prev && ms[b].next == ls[b].next
    ensures ChainOk(ms, head, s)
  {
    forall i: nat | i < |s| ensures Hung(ms, s, i) { assert Hung(ls, s, i); }
  }

  lemma RingFrame(ls: seq<Links>, ms: seq<Links>, ring: seq<nat>)
    requires RingOk(ls, ring) && |ls| == |ms|
    requires forall b: nat | b < |ls| :: ms[b].prevFree == ls[b].prevFree && ms[b].nextFree == ls[b].nextFree
    ensures RingOk(ms, ring)
  {
    forall i: nat | i < |ring| ensures Ringed(ms, ring, i) { assert Ringed(ls, ring, i); }
  }
}
