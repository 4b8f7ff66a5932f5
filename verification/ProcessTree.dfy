// The task table with the links p_pptr, p_cptr, p_ysptr and p_osptr: fork, exit, release, waitpid and
// the audit of kernel/exit.c. A link is a slot number or NULL.

module ProcessTree {
  import opened Kernel
  import opened TreeSpec
  import opened Sequences

  datatype Entry =
    | Empty
    | Task(pptr: int, cptr: int, ysptr: int, osptr: int, state: TaskState, exitCode: int)

  /** The entry of p's i-th child is linked with its parent and its neighbours. */
  ghost predicate Placed(es: seq<Entry>, t: Tree, p: nat, i: nat)
    requires p < NR_TASKS && i < |t.kids[p]|
  {
    var c := t.kids[p][i];
    && c < |es| && es[c].Task? && es[c].pptr == p
    && es[c].ysptr == At(t.kids[p], i - 1) && es[c].osptr == At(t.kids[p], i + 1)
  }

  ghost predicate Headed(es: seq<Entry>, t: Tree, c: nat)
    requires c < NR_TASKS && |es| == NR_TASKS
  {
    && es[c].Task? == t.used[c]
    && (es[c].Task? ==> es[c].cptr == At(t.kids[c], 0) && (es[c].state == Zombie <==> t.zombie[c]))
  }

  ghost predicate Represents(es: seq<Entry>, t: Tree) {
    && |es| == NR_TASKS
    && (forall c: nat | c < NR_TASKS :: Headed(es, t, c))
    && (forall p: nat, i: nat | p < NR_TASKS && i < |t.kids[p]| :: Placed(es, t, p, i))
    && es[0].Task? && es[0].pptr == 0 && es[0].ysptr == NULL && es[0].osptr == NULL
  }

  // ---------------------------------------------------------------- the audit

  predicate Bad(es: seq<Entry>, p: int) {
    p != NULL && !(0 <= p < |es| && es[p].Task?)
  }

  /** No warning about task i: its links lead to tasks and not to itself, and its siblings and its
      youngest child link back. What lies behind a link to no task is not looked at. */
  predicate Audited(es: seq<Entry>, i: nat)
    requires i < |es| && es[i].Task?
  {
    var e := es[i];
    && !Bad(es, e.pptr) && !Bad(es, e.cptr) && !Bad(es, e.ysptr) && !Bad(es, e.osptr)
    && e.pptr != i && e.cptr != i && e.ysptr != i && e.osptr != i
    && (e.osptr != NULL ==> es[e.osptr].pptr == e.pptr && es[e.osptr].ysptr == i)
    && (e.ysptr != NULL ==> es[e.ysptr].pptr == e.pptr && es[e.ysptr].osptr == i)
    && (e.cptr != NULL ==> es[e.cptr].pptr == i && es[e.cptr].ysptr == NULL)
  }

  predicate AllAudited(es: seq<Entry>) {
    forall i: nat | 0 < i < |es| && es[i].Task? :: Audited(es, i)
  }

  lemma ChildAt(t: Tree, c: nat) returns (p: nat, i: nat)
    requires Inv(t) && 0 < c < NR_TASKS && t.used[c]
    ensures p < NR_TASKS && i < |t.kids[p]| && t.kids[p][i] == c && p != c
  {
    assert HasPlace(t, c);
    p := t.parent[c];
    i := IndexOf(t.kids[p], c);
    assert KidOf(t, p, c);
  }

  lemma CleanTask(es: seq<Entry>, t: Tree, c: nat)
    requires Inv(t) && Represents(es, t) && 0 < c < NR_TASKS && es[c].Task?
    ensures Audited(es, c)
  {
    assert Headed(es, t, c);
    var p, i := ChildAt(t, c);
    assert Placed(es, t, p, i);
    assert Headed(es, t, p);
    var kids := t.kids[p];
    assert KidOf(t, p, c);
    if i > 0 { assert Placed(es, t, p, i - 1) && kids[i - 1] in kids && kids[i - 1] != kids[i]; }
    if i + 1 < |kids| { assert Placed(es, t, p, i + 1) && kids[i + 1] in kids && kids[i] != kids[i + 1]; }
    if t.kids[c] != [] { assert Placed(es, t, c, 0) && KidOf(t, c, t.kids[c][0]); }
  }

  /** A table that represents a family tree passes the audit. */
  lemma AuditClean(es: seq<Entry>, t: Tree)
    requires Inv(t) && Represents(es, t)
    ensures AllAudited(es)
  {
    forall c: nat | 0 < c < |es| && es[c].Task? ensures Audited(es, c) {
      CleanTask(es, t, c);
    }
  }

  // ---------------------------------------------------------------- what the operations do to the links

  lemma HeadAt(es: seq<Entry>, t: Tree, c: nat)
    requires Represents(es, t) && c < NR_TASKS
    ensures |es| == NR_TASKS && Headed(es, t, c)
  {
  }

  lemma KidAt(es: seq<Entry>, t: Tree, p: nat, i: nat)
    requires Inv(t) && Represents(es, t) && p < NR_TASKS && i < |t.kids[p]|
    ensures |es| == NR_TASKS && Placed(es, t, p, i) && KidOf(t, p, t.kids[p][i])
    ensures Headed(es, t, t.kids[p][i]) && Headed(es, t, p)
  {
    assert t.kids[p][i] in t.kids[p];
  }

  lemma TwoKids(t: Tree, p: nat, i: nat, j: nat)
    requires Inv(t) && p < NR_TASKS && i < |t.kids[p]| && j < |t.kids[p]|
    ensures t.kids[p][i] == t.kids[p][j] <==> i == j
  {
  }

  lemma KidIn(t: Tree, p: nat, c: nat)
    requires Inv(t) && p < NR_TASKS && c in t.kids[p]
    ensures KidOf(t, p, c)
  {
  }

  function Forked(es: seq<Entry>, c: nat, n: nat, x: nat): Entry
    requires c < |es| && es[c].Task? && x < |es|
  {
    if x == n then Task(c, NULL, NULL, es[c].cptr, Running, es[c].exitCode)
    else if x == c then es[c].(cptr := n)
    else if x == es[c].cptr && es[x].Task? then es[x].(ysptr := n)
    else es[x]
  }

  lemma ForkRepresents(es: seq<Entry>, fs: seq<Entry>, t: Tree, c: nat, n: nat)
    requires Inv(t) && Represents(es, t) && Enabled(t, Fork(c, n)) && es[c].Task?
    requires |fs| == |es| && forall x: nat | x < |es| :: fs[x] == Forked(es, c, n, x)
    ensures Represents(fs, Next(t, Fork(c, n)))
  {
    var u := Next(t, Fork(c, n));
    forall x: nat | x < NR_TASKS ensures Headed(fs, u, x) { ForkHeaded(es, fs, t, c, n, x); }
    forall p: nat, i: nat | p < NR_TASKS && i < |u.kids[p]| ensures Placed(fs, u, p, i) {
      ForkPlaced(es, fs, t, c, n, p, i);
    }
    ForkZero(es, fs, t, c, n);
    hide Inv, Enabled, Next, Headed, Placed, Forked;
  }

  lemma ForkHeaded(es: seq<Entry>, fs: seq<Entry>, t: Tree, c: nat, n: nat, x: nat)
    requires Inv(t) && Represents(es, t) && Enabled(t, Fork(c, n)) && es[c].Task?
    requires |fs| == |es| && forall x: nat | x < |es| :: fs[x] == Forked(es, c, n, x)
    requires x < NR_TASKS
    ensures Headed(fs, Next(t, Fork(c, n)), x)
  {
    hide Inv;
    HeadAt(es, t, c);
    HeadAt(es, t, x);
  }

  /** The links of task 0 other than to its child. */
  lemma ForkZero(es: seq<Entry>, fs: seq<Entry>, t: Tree, c: nat, n: nat)
    requires Inv(t) && Represents(es, t) && Enabled(t, Fork(c, n)) && es[c].Task?
    requires |fs| == |es| && forall x: nat | x < |es| :: fs[x] == Forked(es, c, n, x)
    ensures fs[0].Task? && fs[0].pptr == 0 && fs[0].ysptr == NULL && fs[0].osptr == NULL
  {
    HeadAt(es, t, c);
    assert t.kids[c] != [] ==> KidOf(t, c, t.kids[c][0]);
  }

  lemma ForkPlaced(es: seq<Entry>, fs: seq<Entry>, t: Tree, c: nat, n: nat, p: nat, i: nat)
    requires Inv(t) && Represents(es, t) && Enabled(t, Fork(c, n)) && es[c].Task?
    requires |fs| == |es| && forall x: nat | x < |es| :: fs[x] == Forked(es, c, n, x)
    requires p < NR_TASKS && i < |Next(t, Fork(c, n)).kids[p]|
    ensures Placed(fs, Next(t, Fork(c, n)), p, i)
  {
    var u := Next(t, Fork(c, n));
    assert Headed(es, t, c);
    assert t.kids[n] == [];
    var k := if p == c then i - 1 else i;
    assert k >= 0 ==> Placed(es, t, p, k) && KidOf(t, p, t.kids[p][k]);
    assert p != c && t.kids[c] != [] ==> KidOf(t, c, t.kids[c][0]);
    assert Distinct(t.kids[c]);
    hide Inv, Represents;
    if p == c { ForkPlacedHere(es, fs, t, u, c, n, i); } else { ForkPlacedElsewhere(es, fs, t, u, c, n, p, i); }
  }

  /** The new child of c comes first, then the others. */
  lemma ForkPlacedHere(es: seq<Entry>, fs: seq<Entry>, t: Tree, u: Tree, c: nat, n: nat, i: nat)
    requires c < |es| == |fs| == NR_TASKS && n < |es| && c != n && es[c].Task? && es[c].cptr == At(t.kids[c], 0)
    requires forall x: nat | x < |es| :: fs[x] == Forked(es, c, n, x)
    requires Distinct(t.kids[c]) && !t.used[n] && u.kids[c] == [n] + t.kids[c] && i <= |t.kids[c]|
    requires i > 0 ==> Placed(es, t, c, i - 1) && KidOf(t, c, t.kids[c][i - 1])
    ensures Placed(fs, u, c, i)
  {
    if i == 0 {
      assert At(u.kids[c], 1) == At(t.kids[c], 0);
    } else {
      var x := t.kids[c][i - 1];
      assert u.kids[c][i] == x && x != n && x != c;
      assert At(u.kids[c], i + 1) == At(t.kids[c], i);
      assert i > 1 ==> x != t.kids[c][0] && At(u.kids[c], i - 1) == At(t.kids[c], i - 2);
    }
  }

  lemma ForkPlacedElsewhere(es: seq<Entry>, fs: seq<Entry>, t: Tree, u: Tree, c: nat, n: nat, p: nat, i: nat)
    requires c < |es| == |fs| == NR_TASKS && n < |es| && es[c].Task? && es[c].cptr == At(t.kids[c], 0)
    requires forall x: nat | x < |es| :: fs[x] == Forked(es, c, n, x)
    requires p < NR_TASKS && p != c && u.kids[p] == t.kids[p] && i < |t.kids[p]| && !t.used[n]
    requires Placed(es, t, p, i) && KidOf(t, p, t.kids[p][i])
    requires t.kids[c] != [] ==> KidOf(t, c, t.kids[c][0])
    ensures Placed(fs, u, p, i)
  {
    assert t.kids[p][i] != n && (t.kids[c] != [] ==> t.kids[p][i] != t.kids[c][0]);
  }

  /** The entries after c, whose children are kids, has left them to init. */
  function Exited(es: seq<Entry>, c: nat, kids: seq<nat>, x: nat): Entry
    requires 1 < |es| && es[1].Task? && x < |es|
  {
    if es[x].Empty? then Empty
    else
      Task(if x in kids then 1 else es[x].pptr,
        if x == c then NULL else if x == 1 && kids != [] then kids[0] else es[x].cptr,
        if kids != [] && x == es[1].cptr then kids[|kids| - 1] else es[x].ysptr,
        if kids != [] && x == kids[|kids| - 1] then es[1].cptr else es[x].osptr,
        if x == c then Zombie else es[x].state,
        es[x].exitCode)
  }

  lemma ExitRepresents(es: seq<Entry>, fs: seq<Entry>, t: Tree, c: nat)
    requires Inv(t) && Represents(es, t) && Enabled(t, Exit(c)) && es[1].Task? && t.kids[1] != []
    requires |fs| == |es| && forall x: nat | x < |es| :: fs[x] == Exited(es, c, t.kids[c], x)
    ensures Represents(fs, Next(t, Exit(c)))
  {
    var u := Next(t, Exit(c));
    assert u.kids[1] == t.kids[c] + t.kids[1];
    forall x: nat | x < NR_TASKS ensures Headed(fs, u, x) {
      assert Headed(es, t, x);
    }
    forall p: nat, i: nat | p < NR_TASKS && i < |u.kids[p]| ensures Placed(fs, u, p, i) {
      ExitPlaced(es, fs, t, c, p, i);
    }
    assert Placed(es, t, 1, 0) && KidOf(t, 1, t.kids[1][0]);
    assert Headed(es, t, 1);
    forall x: nat | x in t.kids[c] ensures KidOf(t, c, x) {}
  }

  lemma ExitPlaced(es: seq<Entry>, fs: seq<Entry>, t: Tree, c: nat, p: nat, i: nat)
    requires Inv(t) && Represents(es, t) && Enabled(t, Exit(c)) && es[1].Task? && t.kids[1] != []
    requires |fs| == |es| && forall x: nat | x < |es| :: fs[x] == Exited(es, c, t.kids[c], x)
    requires p < NR_TASKS && i < |Next(t, Exit(c)).kids[p]|
    ensures Placed(fs, Next(t, Exit(c)), p, i)
  {
    hide Inv, Represents, Placed;
    if p != 1 {
      ExitPlacedElsewhere(es, fs, t, c, p, i);
    } else if i < |t.kids[c]| {
      ExitPlacedMoved(es, fs, t, c, i);
    } else {
      ExitPlacedBehind(es, fs, t, c, i);
    }
  }

  lemma ExitPlacedElsewhere(es: seq<Entry>, fs: seq<Entry>, t: Tree, c: nat, p: nat, i: nat)
    requires Inv(t) && Represents(es, t) && Enabled(t, Exit(c)) && es[1].Task? && t.kids[1] != []
    requires |fs| == |es| && forall x: nat | x < |es| :: fs[x] == Exited(es, c, t.kids[c], x)
    requires p < NR_TASKS && p != 1 && i < |Next(t, Exit(c)).kids[p]|
    ensures Placed(fs, Next(t, Exit(c)), p, i)
  {
    hide Inv, Represents;
    var a := t.kids[c];
    assert Next(t, Exit(c)).kids[p] == t.kids[p];
    KidAt(es, t, 1, 0);
    if a != [] { KidAt(es, t, c, |a| - 1); }
    KidAt(es, t, p, i);
    if t.kids[p][i] in a { KidIn(t, c, t.kids[p][i]); }
  }

  /** The orphans come first among init's children, */
  lemma ExitPlacedMoved(es: seq<Entry>, fs: seq<Entry>, t: Tree, c: nat, i: nat)
    requires Inv(t) && Represents(es, t) && Enabled(t, Exit(c)) && es[1].Task? && t.kids[1] != []
    requires |fs| == |es| && forall x: nat | x < |es| :: fs[x] == Exited(es, c, t.kids[c], x)
    requires i < |t.kids[c]|
    ensures i < |Next(t, Exit(c)).kids[1]| && Placed(fs, Next(t, Exit(c)), 1, i)
  {
    hide Inv, Represents;
    var a, b := t.kids[c], t.kids[1];
    assert Next(t, Exit(c)).kids[1] == a + b;
    KidAt(es, t, 1, 0);
    KidAt(es, t, c, |a| - 1);
    KidAt(es, t, c, i);
    TwoKids(t, c, i, |a| - 1);
    assert a[i] in a;
  }

  /** before those it had. */
  lemma ExitPlacedBehind(es: seq<Entry>, fs: seq<Entry>, t: Tree, c: nat, i: nat)
    requires Inv(t) && Represents(es, t) && Enabled(t, Exit(c)) && es[1].Task? && t.kids[1] != []
    requires |fs| == |es| && forall x: nat | x < |es| :: fs[x] == Exited(es, c, t.kids[c], x)
    requires |t.kids[c]| <= i < |Next(t, Exit(c)).kids[1]|
    ensures Placed(fs, Next(t, Exit(c)), 1, i)
  {
    hide Inv, Represents;
    var a, b := t.kids[c], t.kids[1];
    assert Next(t, Exit(c)).kids[1] == a + b;
    KidAt(es, t, 1, 0);
    if a != [] { KidAt(es, t, c, |a| - 1); }
    KidAt(es, t, 1, i - |a|);
    TwoKids(t, 1, i - |a|, 0);
    if b[i - |a|] in a { KidIn(t, c, b[i - |a|]); }
  }

  function Released(es: seq<Entry>, k: nat, x: nat): Entry
    requires k < |es| && es[k].Task? && x < |es|
  {
    if x == k || es[x].Empty? then Empty
    else
      var p, y, o := es[k].pptr, es[k].ysptr, es[k].osptr;
      es[x].(cptr := if x == p && y == NULL then o else es[x].cptr,
             ysptr := if x == o then y else es[x].ysptr,
             osptr := if x == y then o else es[x].osptr)
  }

  lemma ReapRepresents(es: seq<Entry>, fs: seq<Entry>, t: Tree, p: nat, k: nat)
    requires Inv(t) && Represents(es, t) && Enabled(t, Reap(p, k)) && es[k].Task?
    requires |fs| == |es| && forall x: nat | x < |es| :: fs[x] == Released(es, k, x)
    ensures Represents(fs, Next(t, Reap(p, k)))
  {
    hide Inv;
    var u := Next(t, Reap(p, k));
    var i := IndexOf(t.kids[p], k);
    KidAt(es, t, p, i);
    if i > 0 { KidAt(es, t, p, i - 1); }
    if i + 1 < |t.kids[p]| { KidAt(es, t, p, i + 1); }
    forall x: nat | x < NR_TASKS ensures Headed(fs, u, x) {
      ReapHeaded(es, fs, t, p, k, x);
    }
    forall q: nat, j: nat | q < NR_TASKS && j < |u.kids[q]| ensures Placed(fs, u, q, j) {
      ReapPlaced(es, fs, t, p, k, q, j);
    }
  }

  lemma ReapHeaded(es: seq<Entry>, fs: seq<Entry>, t: Tree, p: nat, k: nat, x: nat)
    requires Inv(t) && Represents(es, t) && Enabled(t, Reap(p, k)) && es[k].Task?
    requires |fs| == |es| && forall x: nat | x < |es| :: fs[x] == Released(es, k, x)
    requires x < NR_TASKS
    ensures Headed(fs, Next(t, Reap(p, k)), x)
  {
    hide Inv, Represents;
    var s := t.kids[p];
    var i := IndexOf(s, k);
    KidAt(es, t, p, i);
    HeadAt(es, t, x);
    if i > 0 { KidAt(es, t, p, i - 1); }
    if i + 1 < |s| { KidAt(es, t, p, i + 1); }
    assert Without(s, k) == Cut(s, i);
  }

  lemma ReapPlaced(es: seq<Entry>, fs: seq<Entry>, t: Tree, p: nat, k: nat, q: nat, j: nat)
    requires Inv(t) && Represents(es, t) && Enabled(t, Reap(p, k)) && es[k].Task?
    requires |fs| == |es| && forall x: nat | x < |es| :: fs[x] == Released(es, k, x)
    requires q < NR_TASKS && j < |Next(t, Reap(p, k)).kids[q]|
    ensures Placed(fs, Next(t, Reap(p, k)), q, j)
  {
    hide Inv, Represents, Placed;
    if q != p { ReapPlacedElsewhere(es, fs, t, p, k, q, j); } else { ReapPlacedHere(es, fs, t, p, k, j); }
  }

  lemma ReapPlacedElsewhere(es: seq<Entry>, fs: seq<Entry>, t: Tree, p: nat, k: nat, q: nat, j: nat)
    requires Inv(t) && Represents(es, t) && Enabled(t, Reap(p, k)) && es[k].Task?
    requires |fs| == |es| && forall x: nat | x < |es| :: fs[x] == Released(es, k, x)
    requires q < NR_TASKS && q != p && j < |t.kids[q]|
    ensures Next(t, Reap(p, k)).kids[q] == t.kids[q] && Placed(fs, Next(t, Reap(p, k)), q, j)
  {
    hide Inv, Represents;
    var s := t.kids[p];
    var i := IndexOf(s, k);
    KidAt(es, t, p, i);
    if i > 0 { KidAt(es, t, p, i - 1); }
    if i + 1 < |s| { KidAt(es, t, p, i + 1); }
    KidAt(es, t, q, j);
  }

  /** The siblings of the released child close up. */
  lemma ReapPlacedHere(es: seq<Entry>, fs: seq<Entry>, t: Tree, p: nat, k: nat, j: nat)
    requires Inv(t) && Represents(es, t) && Enabled(t, Reap(p, k)) && es[k].Task?
    requires |fs| == |es| && forall x: nat | x < |es| :: fs[x] == Released(es, k, x)
    requires j < |Next(t, Reap(p, k)).kids[p]|
    ensures Placed(fs, Next(t, Reap(p, k)), p, j)
  {
    hide Inv, Represents;
    var s := t.kids[p];
    var i := IndexOf(s, k);
    var m := if j < i then j else j + 1;
    assert Next(t, Reap(p, k)).kids[p] == s[..i] + s[i + 1..];
    KidAt(es, t, p, i);
    KidAt(es, t, p, m);
    TwoKids(t, p, m, i);
    if i > 0 { TwoKids(t, p, m, i - 1); }
    if i + 1 < |s| { TwoKids(t, p, m, i + 1); }
  }

  // ---------------------------------------------------------------- the operations

  datatype WaitResult = Reaped(k: nat) | Reported(k: nat) | Later | NoChild

  predicate Ripe(es: seq<Entry>, k: nat, wanted: nat -> bool, untraced: bool) {
    && wanted(k) && k < |es| && es[k].Task?
    && (es[k].state == Zombie || (es[k].state == Stopped && untraced && es[k].exitCode != 0))
  }

  predicate Alive(es: seq<Entry>, k: nat, wanted: nat -> bool) {
    wanted(k) && k < |es| && es[k].Task? && es[k].state != Zombie && es[k].state != Stopped
  }

  /** The youngest child asked for that is dead, or has stopped and is to be reported. If there is none,
      whether a live one was asked for. */
  function Decision(es: seq<Entry>, kids: seq<nat>, wanted: nat -> bool, untraced: bool): WaitResult {
    if kids == [] then NoChild
    else if Ripe(es, kids[0], wanted, untraced) then
      if es[kids[0]].state == Zombie then Reaped(kids[0]) else Reported(kids[0])
    else
      var d := Decision(es, kids[1..], wanted, untraced);
      if d == NoChild && Alive(es, kids[0], wanted) then Later else d
  }

  /** k is the first child of these that is ripe. */
  ghost predicate FirstRipe(es: seq<Entry>, kids: seq<nat>, wanted: nat -> bool, untraced: bool, k: nat) {
    exists i: nat :: i < |kids| && kids[i] == k && Ripe(es, k, wanted, untraced)
      && forall j: nat | j < i :: !Ripe(es, kids[j], wanted, untraced)
  }

  /** What waitpid answers: the youngest ripe child, dead or stopped; if none is ripe, whether one is alive. */
  lemma {:induction false} DecisionIs(es: seq<Entry>, kids: seq<nat>, wanted: nat -> bool, untraced: bool)
    ensures match Decision(es, kids, wanted, untraced)
            case Reaped(k) => FirstRipe(es, kids, wanted, untraced, k) && es[k].state == Zombie
            case Reported(k) => FirstRipe(es, kids, wanted, untraced, k) && es[k].state == Stopped
            case Later =>
              && (exists k: nat :: k in kids && Alive(es, k, wanted))
              && forall k: nat | k in kids :: !Ripe(es, k, wanted, untraced)
            case NoChild => forall k: nat | k in kids :: !Alive(es, k, wanted) && !Ripe(es, k, wanted, untraced)
  {
    if kids != [] {
      if Ripe(es, kids[0], wanted, untraced) {
        assert FirstRipe(es, kids, wanted, untraced, kids[0]);
      } else {
        DecisionIs(es, kids[1..], wanted, untraced);
        forall k: nat | FirstRipe(es, kids[1..], wanted, untraced, k)
          ensures FirstRipe(es, kids, wanted, untraced, k)
        {
          var i: nat :| i < |kids[1..]| && kids[1..][i] == k && Ripe(es, k, wanted, untraced)
            && forall j: nat | j < i :: !Ripe(es, kids[1..][j], wanted, untraced);
          assert kids[i + 1] == k;
          forall j: nat | j < i + 1 ensures !Ripe(es, kids[j], wanted, untraced) {
            if j > 0 { assert kids[1..][j - 1] == kids[j]; }
          }
        }
        assert forall k: nat :: k in kids <==> k == kids[0] || k in kids[1..];
      }
    }
  }

  class TaskTable {
    const task: array<Entry>
    ghost var tree: Tree

    ghost predicate Valid()
      reads this, task
    {
      Inv(tree) && Represents(task[..], tree)
    }

    constructor ()
      ensures Valid() && tree == Start()
      ensures fresh(task)
    {
      task := new Entry[NR_TASKS](i => if i == 0 then Task(0, NULL, NULL, NULL, Running, 0) else Empty);
      tree := Start();
      new;
      StartInv();
      assert forall c: nat | c < NR_TASKS :: task[..][c] == task[c];
    }

    method BadTaskPtr(p: int) returns (bad: bool)
      ensures bad == Bad(task[..], p)
    {
      if p == NULL {
        return false;
      }
      var i := 0;
      while i < task.Length
        invariant 0 <= i <= task.Length && !(0 <= p < i && task[p].Task?)
      {
        if task[i].Task? && i == p {
          return false;
        }
        i := i + 1;
      }
      bad := true;
    }

    /** The warnings of audit_ptree about task i. */
    method AuditTask(i: nat) returns (warnings: nat)
      requires i < task.Length && task[i].Task?
      ensures warnings == 0 <==> Audited(task[..], i)
    {
      warnings := 0;
      var badP := BadTaskPtr(task[i].pptr);
      if badP { warnings := warnings + 1; }
      var badC := BadTaskPtr(task[i].cptr);
      if badC { warnings := warnings + 1; }
      var badY := BadTaskPtr(task[i].ysptr);
      if badY { warnings := warnings + 1; }
      var badO := BadTaskPtr(task[i].osptr);
      if badO { warnings := warnings + 1; }
      if task[i].pptr == i { warnings := warnings + 1; }
      if task[i].cptr == i { warnings := warnings + 1; }
      if task[i].ysptr == i { warnings := warnings + 1; }
      if task[i].osptr == i { warnings := warnings + 1; }
      if task[i].osptr != NULL && !badO {
        if task[i].pptr != task[task[i].osptr].pptr { warnings := warnings + 1; }
        if task[task[i].osptr].ysptr != i { warnings := warnings + 1; }
      }
      if task[i].ysptr != NULL && !badY {
        if task[i].pptr != task[task[i].ysptr].pptr { warnings := warnings + 1; }
        if task[task[i].ysptr].osptr != i { warnings := warnings + 1; }
      }
      if task[i].cptr != NULL && !badC {
        if task[task[i].cptr].pptr != i { warnings := warnings + 1; }
        if task[task[i].cptr].ysptr != NULL { warnings := warnings + 1; }
      }
    }

    method AuditPtree() returns (warnings: nat)
      ensures warnings == 0 <==> AllAudited(task[..])
    {
      warnings := 0;
      var i := 1;
      while i < task.Length
        invariant 1 <= i
        invariant warnings == 0 <==> forall k: nat | 0 < k < i && k < task.Length && task[k].Task? ::
          Audited(task[..], k)
      {
        if task[i].Task? {
          var w := AuditTask(i);
          warnings := warnings + w;
        }
        i := i + 1;
      }
    }

    /** The first free slot from 1 on. */
    method FindEmpty() returns (nr: int)
      requires Valid()
      ensures nr == NULL ==> forall i: nat | 0 < i < NR_TASKS :: tree.used[i]
      ensures nr != NULL ==> 0 < nr < NR_TASKS && !tree.used[nr] && forall i: nat | 0 < i < nr :: tree.used[i]
    {
      nr := 1;
      while nr < NR_TASKS && task[nr].Task?
        invariant 1 <= nr <= NR_TASKS
        invariant forall i: nat | 0 < i < nr :: tree.used[i]
      {
        assert Headed(task[..], tree, nr);
        nr := nr + 1;
      }
      if nr == NR_TASKS {
        nr := NULL;
      } else {
        assert Headed(task[..], tree, nr);
      }
    }

    /** The linking of a new task in copy_process. */
    method Fork(current: nat) returns (nr: int)
      requires Valid() && current < NR_TASKS && tree.used[current] && !tree.zombie[current]
      requires current == 0 ==> !tree.used[1]
      modifies this, task
      ensures Valid()
      ensures nr == NULL ==> tree == old(tree) && forall i: nat | 0 < i < NR_TASKS :: tree.used[i]
      ensures nr != NULL ==> 0 < nr < NR_TASKS && Enabled(old(tree), TreeSpec.Fork(current, nr))
      ensures nr != NULL ==> tree == Next(old(tree), TreeSpec.Fork(current, nr))
    {
      nr := FindEmpty();
      if nr == NULL {
        return;
      }
      ghost var es := task[..];
      HeadAt(es, tree, current);
      HeadAt(es, tree, nr);
      if tree.kids[current] != [] { KidAt(es, tree, current, 0); }
      LinkChild(current, nr);
      NextInv(tree, TreeSpec.Fork(current, nr));
      ForkRepresents(es, task[..], tree, current, nr);
      tree := Next(tree, TreeSpec.Fork(current, nr));
    }

    /** The new entry is a copy of its parent's with its own links. */
    method LinkChild(current: nat, nr: nat)
      requires current < task.Length && nr < task.Length && task[current].Task? && task[nr].Empty?
      requires var y := task[current].cptr; y == NULL || (0 <= y < task.Length && task[y].Task? && y != current)
      modifies task
      ensures forall x: nat | x < task.Length :: task[x] == Forked(old(task[..]), current, nr, x)
    {
      task[nr] := task[current].(state := Uninterruptible);
      task[nr] := task[nr].(pptr := current);
      task[nr] := task[nr].(cptr := NULL);
      task[nr] := task[nr].(ysptr := NULL);
      task[nr] := task[nr].(osptr := task[current].cptr);
      if task[nr].osptr != NULL {
        task[task[nr].osptr] := task[task[nr].osptr].(ysptr := nr);
      }
      task[current] := task[current].(cptr := nr);
      task[nr] := task[nr].(state := Running);
    }

    /** The loop of do_exit over the children of a task, youngest first; p is the oldest of them. */
    method Adopt(current: nat, ghost kids: seq<nat>) returns (p: nat)
      requires task.Length == NR_TASKS && current < NR_TASKS && kids != [] && Distinct(kids) && current !in kids
      requires task[current].Task? && task[current].cptr == kids[0]
      requires forall i: nat | i < |kids| :: Sibling(kids, i)
      modifies task
      ensures p == kids[|kids| - 1]
      ensures forall x: nat | x < NR_TASKS ::
        task[x] == if x in kids && old(task[x]).Task? then old(task[x]).(pptr := 1) else old(task[x])
    {
      assert Sibling(kids, 0);
      p := task[current].cptr;
      ghost var i: nat := 0;
      task[p] := task[p].(pptr := 1);
      while task[p].osptr != NULL
        invariant i < |kids| && p == kids[i] && p < NR_TASKS && old(task[p]).Task? && task[p].Task?
        invariant task[p].osptr == old(task[p]).osptr
        invariant forall x: nat | x < NR_TASKS ::
          task[x] == if x in kids[..i + 1] && old(task[x]).Task? then old(task[x]).(pptr := 1) else old(task[x])
        decreases |kids| - i
      {
        assert old(Sibling(kids, i)) && old(Sibling(kids, i + 1));
        p := task[p].osptr;
        i := i + 1;
        task[p] := task[p].(pptr := 1);
        assert kids[..i + 1] == kids[..i] + [p];
      }
      assert old(Sibling(kids, i));
      assert kids[..i + 1] == kids;
    }

    ghost predicate Sibling(kids: seq<nat>, i: nat)
      requires i < |kids|
      reads task
    {
      kids[i] < task.Length && task[kids[i]].Task? && task[kids[i]].osptr == At(kids, i + 1)
    }

    /** All the children of a task that exits go to the front of init's. */
    method Bequeath(current: nat, ghost kids: seq<nat>)
      requires task.Length == NR_TASKS && 1 < current < NR_TASKS && Distinct(kids) && current !in kids && 1 !in kids
      requires task[current].Task? && task[current].cptr == At(kids, 0)
      requires forall i: nat | i < |kids| :: Sibling(kids, i)
      requires task[1].Task? && 1 < task[1].cptr < NR_TASKS && task[task[1].cptr].Task? && task[1].cptr !in kids
      modifies task
      ensures forall x: nat | x < task.Length :: task[x] == Exited(old(task[..]), current, kids, x)
    {
      task[current] := task[current].(state := Zombie);
      var p := task[current].cptr;
      if p != NULL {
        forall i: nat | i < |kids| ensures Sibling(kids, i) {
          assert old(Sibling(kids, i)) && kids[i] in kids;
        }
        p := Adopt(current, kids);
        assert old(Sibling(kids, |kids| - 1)) && kids[0] in kids && p in kids;
        task[p] := task[p].(osptr := task[1].cptr);
        task[task[1].cptr] := task[task[1].cptr].(ysptr := p);
        task[1] := task[1].(cptr := task[current].cptr);
        task[current] := task[current].(cptr := NULL);
      }
    }

    /** do_exit, and the audit after it, which finds nothing. */
    method Exit(current: nat) returns (warnings: nat)
      requires Valid() && Enabled(tree, TreeSpec.Exit(current))
      modifies this, task
      ensures Valid() && tree == Next(old(tree), TreeSpec.Exit(current))
      ensures warnings == 0
    {
      ghost var es := task[..];
      ghost var kids := tree.kids[current];
      Descends(tree, current);
      KidsReady(current);
      Bequeath(current, kids);
      NextInv(tree, TreeSpec.Exit(current));
      ExitRepresents(es, task[..], tree, current);
      tree := Next(tree, TreeSpec.Exit(current));
      AuditClean(task[..], tree);
      warnings := AuditPtree();
    }

    lemma KidsReady(current: nat)
      requires Valid() && Enabled(tree, TreeSpec.Exit(current)) && tree.kids[1] != []
      ensures var kids := tree.kids[current];
        && Distinct(kids) && current !in kids && 1 !in kids
        && task[current].Task? && task[current].cptr == At(kids, 0)
        && (forall i: nat | i < |kids| :: Sibling(kids, i))
        && task[1].Task? && 1 < task[1].cptr < NR_TASKS && task[task[1].cptr].Task? && task[1].cptr !in kids
    {
      var es := task[..];
      HeadAt(es, tree, current);
      KidAt(es, tree, 1, 0);
      forall i: nat | i < |tree.kids[current]| ensures Sibling(tree.kids[current], i) {
        KidAt(es, tree, current, i);
      }
      forall x: nat | x in tree.kids[current] ensures KidOf(tree, current, x) {
        KidIn(tree, current, x);
      }
    }

    /** q is no link or leads to a task other than k. */
    ghost predicate Leads(q: int, k: nat)
      reads task
    {
      q == NULL || (0 <= q < task.Length && q != k && task[q].Task?)
    }

    /** The unlinking of release; nothing leads to the slot any more. */
    method Release(k: nat)
      requires task.Length == NR_TASKS && k < NR_TASKS && task[k].Task?
      requires Leads(task[k].pptr, k) && Leads(task[k].ysptr, k) && Leads(task[k].osptr, k) && task[k].pptr != NULL
      modifies task
      ensures forall x: nat | x < task.Length :: task[x] == Released(old(task[..]), k, x)
    {
      var p := task[k];
      task[k] := Empty;
      if p.osptr != NULL {
        task[p.osptr] := task[p.osptr].(ysptr := p.ysptr);
      }
      if p.ysptr != NULL {
        task[p.ysptr] := task[p.ysptr].(osptr := p.osptr);
      } else {
        task[p.pptr] := task[p.pptr].(cptr := p.osptr);
      }
    }

    /** The scan of waitpid: the first child asked for that is dead or has stopped decides. The audit
        after a release finds nothing. */
    method WaitPid(current: nat, wanted: nat -> bool, untraced: bool) returns (r: WaitResult, warnings: nat)
      requires Valid() && current < NR_TASKS && tree.used[current] && !tree.zombie[current]
      modifies this, task
      ensures Valid() && warnings == 0
      ensures r == Decision(old(task[..]), old(tree).kids[current], wanted, untraced)
      ensures r.Reaped? ==> Enabled(old(tree), Reap(current, r.k)) && tree == Next(old(tree), Reap(current, r.k))
      ensures !r.Reaped? ==> tree == old(tree)
    {
      ghost var es := task[..];
      ghost var kids := tree.kids[current];
      HeadAt(es, tree, current);
      warnings := 0;
      var flag := false;
      var p := task[current].cptr;
      ghost var i: nat := 0;
      while p != NULL
        invariant task[..] == es && tree == old(tree) && i <= |kids| && p == At(kids, i)
        invariant Decision(es, kids, wanted, untraced) ==
          (var d := Decision(es, kids[i..], wanted, untraced); if d == NoChild && flag then Later else d)
        decreases |kids| - i
      {
        KidAt(es, tree, current, i);
        assert kids[i..][0] == kids[i] && kids[i..][1..] == kids[i + 1..];
        if wanted(p) {
          if task[p].state == Stopped {
            if untraced && task[p].exitCode != 0 {
              task[p] := task[p].(exitCode := 0);
              CodeDoesNotMatter(es, task[..], tree, p);
              return Reported(p), 0;
            }
          } else if task[p].state == Zombie {
            Reapable(current, i);
            Release(p);
            NextInv(tree, Reap(current, p));
            ReapRepresents(es, task[..], tree, current, p);
            tree := Next(tree, Reap(current, p));
            AuditClean(task[..], tree);
            warnings := AuditPtree();
            return Reaped(p), warnings;
          } else {
            flag := true;
          }
        }
        p := task[p].osptr;
        i := i + 1;
      }
      r := if flag then Later else NoChild;
    }

    lemma Reapable(current: nat, i: nat)
      requires Valid() && current < NR_TASKS && i < |tree.kids[current]|
      ensures var k := tree.kids[current][i];
        && k < NR_TASKS && task[k].Task? && k in tree.kids[current]
        && Leads(task[k].pptr, k) && Leads(task[k].ysptr, k) && Leads(task[k].osptr, k)
        && task[k].pptr != NULL
    {
      var es := task[..];
      KidAt(es, tree, current, i);
      if i > 0 { KidAt(es, tree, current, i - 1); TwoKids(tree, current, i, i - 1); }
      if i + 1 < |tree.kids[current]| { KidAt(es, tree, current, i + 1); TwoKids(tree, current, i, i + 1); }
    }
  }

  lemma CodeDoesNotMatter(es: seq<Entry>, fs: seq<Entry>, t: Tree, p: nat)
    requires Represents(es, t) && p < |es| == |fs| && es[p].Task? && fs[p].Task?
    requires fs[p] == es[p].(exitCode := fs[p].exitCode) && forall x: nat | x < |es| && x != p :: fs[x] == es[x]
    ensures Represents(fs, t)
  {
    forall c: nat | c < NR_TASKS ensures Headed(fs, t, c) {
      assert Headed(es, t, c);
    }
    forall q: nat, i: nat | q < NR_TASKS && i < |t.kids[q]| ensures Placed(fs, t, q, i) {
      assert Placed(es, t, q, i);
    }
  }
}
