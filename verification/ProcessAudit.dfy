// Which of the task tables that audit_ptree accepts are family trees.

module ProcessAudit {
  import opened Kernel
  import opened TreeSpec
  import opened Sequences
  import opened ProcessTree

  /** What the audit does not look at: task 0, which has no child but init, and the dead, who have none. */
  predicate Founded(es: seq<Entry>)
    requires |es| == NR_TASKS
  {
    && es[0].Task? && es[0].pptr == 0 && es[0].ysptr == NULL && es[0].osptr == NULL && es[0].state != Zombie
    && es[0].cptr == (if es[1].Task? then 1 else NULL)
    && (es[1].Task? ==> es[1].pptr == 0 && es[1].ysptr == NULL && es[1].osptr == NULL && es[1].state != Zombie)
    && (forall i: nat | i < |es| && es[i].Task? && es[i].state == Zombie :: es[i].cptr == NULL)
  }

  predicate LinksTo(es: seq<Entry>, d: nat, c: nat) {
    d < |es| && es[d].Task? && (es[d].cptr == c || es[d].osptr == c)
  }

  /** A walk of n links from task 0 along p_cptr and p_osptr leads to c. */
  ghost predicate MetAfter(es: seq<Entry>, c: nat, n: nat)
    decreases n
  {
    if n == 0 then c == 0 else exists d: nat :: MetAfter(es, d, n - 1) && LinksTo(es, d, c)
  }

  ghost predicate Met(es: seq<Entry>, c: nat) {
    exists n: nat :: MetAfter(es, c, n)
  }

  /** Every task is met on some walk. */
  ghost predicate AllMet(es: seq<Entry>) {
    forall c: nat | c < |es| && es[c].Task? :: Met(es, c)
  }

  // ---------------------------------------------------------------- a family tree passes

  lemma Follow(es: seq<Entry>, d: nat, c: nat)
    requires Met(es, d) && LinksTo(es, d, c)
    ensures Met(es, c)
  {
    var n: nat :| MetAfter(es, d, n);
    assert MetAfter(es, c, n + 1);
  }

  lemma {:induction false} KidMet(es: seq<Entry>, t: Tree, p: nat, i: nat)
    requires Inv(t) && Represents(es, t) && p < NR_TASKS && i < |t.kids[p]| && Met(es, p)
    ensures Met(es, t.kids[p][i])
  {
    KidAt(es, t, p, i);
    if i == 0 {
      Follow(es, p, t.kids[p][0]);
    } else {
      KidAt(es, t, p, i - 1);
      KidMet(es, t, p, i - 1);
      Follow(es, t.kids[p][i - 1], t.kids[p][i]);
    }
  }

  lemma {:induction false} TreeMet(es: seq<Entry>, t: Tree, c: nat)
    requires Inv(t) && Represents(es, t) && c < NR_TASKS && t.used[c]
    ensures Met(es, c)
    decreases t.birth[c]
  {
    if c == 0 {
      assert MetAfter(es, 0, 0);
    } else {
      var p, i := ChildAt(t, c);
      assert KidOf(t, p, c) by { KidAt(es, t, p, i); }
      TreeMet(es, t, p);
      KidMet(es, t, p, i);
    }
  }

  lemma TreeFounded(es: seq<Entry>, t: Tree)
    requires Inv(t) && Represents(es, t)
    ensures Founded(es) && AllMet(es)
  {
    hide Inv, Represents;
    TreeRoot(es, t);
    forall c: nat | c < NR_TASKS && es[c].Task? ensures Met(es, c) {
      HeadAt(es, t, c);
      TreeMet(es, t, c);
    }
  }

  lemma TreeRoot(es: seq<Entry>, t: Tree)
    requires Inv(t) && Represents(es, t)
    ensures |es| == NR_TASKS && Founded(es)
  {
    forall c: nat | c < NR_TASKS ensures Headed(es, t, c) && (t.zombie[c] ==> t.kids[c] == []) {}
    assert t.used[1] ==> Placed(es, t, 0, 0);
    assert Headed(es, t, 0) && Headed(es, t, 1);
    forall i: nat | i < |es| && es[i].Task? && es[i].state == Zombie ensures es[i].cptr == NULL {
      assert Headed(es, t, i);
    }
  }

  // ---------------------------------------------------------------- the tree of a table

  ghost function Least(es: seq<Entry>, c: nat, n: nat): (r: nat)
    requires MetAfter(es, c, n)
    ensures MetAfter(es, c, r) && forall k: nat | k < r :: !MetAfter(es, c, k)
    decreases n
  {
    if k: nat :| k < n && MetAfter(es, c, k) then Least(es, c, k) else n
  }

  /** The length of the shortest walk to c. */
  ghost function Rank(es: seq<Entry>, c: nat): (r: nat)
    ensures Met(es, c) ==> MetAfter(es, c, r) && forall k: nat | k < r :: !MetAfter(es, c, k)
  {
    if n: nat :| MetAfter(es, c, n) then Least(es, c, n) else 0
  }

  /** No family has as many children. */
  const ENOUGH: nat := NR_TASKS + 1

  /** At most n tasks from x on, by p_osptr. */
  function Chain(es: seq<Entry>, x: int, n: nat): seq<nat>
    decreases n
  {
    if n == 0 || !(0 <= x < |es| && es[x].Task?) then [] else [x] + Chain(es, es[x].osptr, n - 1)
  }

  function Kids(es: seq<Entry>, p: nat): seq<nat>
    requires p < |es|
  {
    if es[p].Task? then Chain(es, es[p].cptr, ENOUGH) else []
  }

  function Sum(s: seq<nat>): nat {
    if s == [] then 0 else s[0] + Sum(s[1..])
  }

  lemma {:induction false} SumAbove(s: seq<nat>, i: nat)
    requires i < |s|
    ensures s[i] <= Sum(s)
  {
    if i > 0 { SumAbove(s[1..], i - 1); }
  }

  ghost function Births(es: seq<Entry>): seq<nat>
    requires |es| == NR_TASKS
  {
    seq(NR_TASKS, i requires 0 <= i < NR_TASKS => Rank(es, i))
  }

  /** A task is as young as its walk is long. */
  ghost function Built(es: seq<Entry>): Tree
    requires |es| == NR_TASKS
  {
    Tree(
      seq(NR_TASKS, i requires 0 <= i < NR_TASKS => es[i].Task?),
      seq(NR_TASKS, i requires 0 <= i < NR_TASKS => es[i].Task? && es[i].state == Zombie),
      seq(NR_TASKS, i requires 0 <= i < NR_TASKS => if es[i].Task? && es[i].pptr >= 0 then es[i].pptr else 0),
      seq(NR_TASKS, i requires 0 <= i < NR_TASKS => Kids(es, i)),
      Births(es), Sum(Births(es)) + 1)
  }

  /** The i-th of siblings s is a child of p and linked with its neighbours, the last perhaps to more. */
  predicate Linked(es: seq<Entry>, s: seq<nat>, p: nat, before: int, i: nat, n: nat)
    requires i < |s|
  {
    && 0 < s[i] < |es| && es[s[i]].Task? && es[s[i]].pptr == p
    && es[s[i]].ysptr == (if i == 0 then before else s[i - 1])
    && (i + 1 < n ==> es[s[i]].osptr == At(s, i + 1))
  }

  lemma {:induction false} ChainLinked(es: seq<Entry>, x: int, p: nat, before: int, n: nat)
    requires |es| == NR_TASKS && AllAudited(es) && Founded(es)
    requires x != NULL ==> 0 < x < |es| && es[x].Task? && es[x].pptr == p && es[x].ysptr == before
    ensures var s := Chain(es, x, n);
      |s| <= n && (forall i: nat | i < |s| :: Linked(es, s, p, before, i, n)) && (n > 0 ==> At(s, 0) == x)
    decreases n
  {
    var s := Chain(es, x, n);
    if n > 0 && x != NULL {
      assert Audited(es, x);
      var y := es[x].osptr;
      var r := Chain(es, y, n - 1);
      ChainLinked(es, y, p, x, n - 1);
      forall i: nat | i < |s| ensures Linked(es, s, p, before, i, n) {
        if i > 0 { assert Linked(es, r, p, x, i - 1, n - 1); }
      }
    }
  }

  /** Nobody comes twice: the link back leads to one place only. */
  lemma {:induction false} LinkedApart(es: seq<Entry>, s: seq<nat>, p: nat, n: nat, i: nat, j: nat)
    requires forall k: nat | k < |s| :: Linked(es, s, p, NULL, k, n)
    requires i < j < |s|
    ensures s[i] != s[j]
  {
    assert Linked(es, s, p, NULL, i, n) && Linked(es, s, p, NULL, j, n);
    if i > 0 { LinkedApart(es, s, p, n, i - 1, j - 1); }
  }

  ghost predicate IsKids(es: seq<Entry>, p: nat, s: seq<nat>)
    requires p < |es| && es[p].Task?
  {
    && Distinct(s) && At(s, 0) == es[p].cptr
    && |s| < ENOUGH && forall i: nat | i < |s| :: Linked(es, s, p, NULL, i, ENOUGH)
  }

  lemma KidsLinked(es: seq<Entry>, p: nat)
    requires |es| == NR_TASKS && AllAudited(es) && Founded(es) && p < NR_TASKS && es[p].Task?
    ensures IsKids(es, p, Kids(es, p))
  {
    hide Chain, Linked;
    if p > 0 { assert Audited(es, p); }
    ChainLinked(es, es[p].cptr, p, NULL, ENOUGH);
    LinkedAll(es, Kids(es, p), p);
  }

  lemma LinkedAll(es: seq<Entry>, s: seq<nat>, p: nat)
    requires |es| == NR_TASKS && forall i: nat | i < |s| :: Linked(es, s, p, NULL, i, ENOUGH)
    ensures Distinct(s) && |s| < ENOUGH
  {
    forall i: nat, j: nat | i < j < |s| ensures s[i] != s[j] { LinkedApart(es, s, p, ENOUGH, i, j); }
    forall i: nat | i < |s| ensures s[i] < NR_TASKS { assert Linked(es, s, p, NULL, i, ENOUGH); }
    DistinctBound(s, NR_TASKS);
  }

  /** The parent is met on the way. */
  lemma {:induction false} ParentFirst(es: seq<Entry>, c: nat, n: nat)
    requires |es| == NR_TASKS && AllAudited(es) && Founded(es)
    requires 0 < c < NR_TASKS && es[c].Task? && MetAfter(es, c, n)
    ensures 0 <= es[c].pptr < NR_TASKS && es[es[c].pptr].Task?
    ensures c in Kids(es, es[c].pptr)
    ensures exists k: nat :: k < n && MetAfter(es, es[c].pptr, k)
    decreases n
  {
    var d: nat :| MetAfter(es, d, n - 1) && LinksTo(es, d, c);
    assert d > 0 ==> Audited(es, d);
    if es[d].cptr == c {
      KidsLinked(es, d);
    } else {
      ParentFirst(es, d, n - 1);
      var p: nat := es[d].pptr;
      KidsLinked(es, p);
      var i := IndexOf(Kids(es, p), d);
      assert Linked(es, Kids(es, p), p, NULL, i, ENOUGH);
      assert Kids(es, p)[i + 1] == c;
    }
  }

  lemma BuiltChild(es: seq<Entry>, c: nat)
    requires |es| == NR_TASKS && AllAudited(es) && Founded(es) && AllMet(es)
    requires 0 < c < NR_TASKS && es[c].Task?
    ensures HasPlace(Built(es), c) && Built(es).birth[Built(es).parent[c]] < Built(es).birth[c]
    ensures es[1].Task? && (c > 1 ==> Built(es).birth[1] < Built(es).birth[c])
  {
    var n := Rank(es, c);
    ParentFirst(es, c, n);
    var k: nat :| k < n && MetAfter(es, es[c].pptr, k);
    assert Met(es, es[c].pptr) && Rank(es, es[c].pptr) <= k;
    InitFirst(es, c, n);
  }

  /** The first step leads to init. */
  lemma {:induction false} InitFirst(es: seq<Entry>, c: nat, n: nat)
    requires |es| == NR_TASKS && Founded(es) && c > 0 && MetAfter(es, c, n)
    ensures es[1].Task? && n > 0 && (c > 1 ==> n > 1) && MetAfter(es, 1, 1)
    decreases n
  {
    var d: nat :| MetAfter(es, d, n - 1) && LinksTo(es, d, c);
    if d > 0 {
      InitFirst(es, d, n - 1);
    } else {
      assert MetAfter(es, 0, 0) && LinksTo(es, 0, 1);
    }
  }

  lemma BuiltFamily(es: seq<Entry>)
    requires |es| == NR_TASKS && AllAudited(es) && Founded(es) && AllMet(es)
    ensures Family(Built(es)) && Represents(es, Built(es))
  {
    hide Kids, Rank, MetAfter, Audited;
    var t := Built(es);
    forall p: nat, i: nat | p < NR_TASKS && i < |t.kids[p]| ensures Placed(es, t, p, i) && KidOf(t, p, t.kids[p][i]) {
      BuiltKid(es, p, i);
    }
    forall p: nat | p < NR_TASKS ensures Headed(es, t, p) && Distinct(t.kids[p]) { BuiltHead(es, p); }
    forall c: nat | 0 < c < NR_TASKS && t.used[c] ensures HasPlace(t, c) { BuiltChild(es, c); }
  }

  lemma BuiltHead(es: seq<Entry>, p: nat)
    requires |es| == NR_TASKS && AllAudited(es) && Founded(es) && p < NR_TASKS
    ensures Headed(es, Built(es), p) && Distinct(Built(es).kids[p])
  {
    if es[p].Task? { KidsLinked(es, p); }
  }

  lemma BuiltKid(es: seq<Entry>, p: nat, i: nat)
    requires |es| == NR_TASKS && AllAudited(es) && Founded(es) && AllMet(es)
    requires p < NR_TASKS && i < |Built(es).kids[p]|
    ensures Placed(es, Built(es), p, i) && KidOf(Built(es), p, Built(es).kids[p][i])
  {
    var s := Kids(es, p);
    assert es[p].Task?;
    KidsLinked(es, p);
    assert Linked(es, s, p, NULL, i, ENOUGH);
    BuiltChild(es, s[i]);
    SumAbove(Births(es), s[i]);
  }

  lemma BuiltInv(es: seq<Entry>)
    requires |es| == NR_TASKS && AllAudited(es) && Founded(es) && AllMet(es)
    ensures Inv(Built(es)) && Represents(es, Built(es))
  {
    hide Family, Represents, Kids, Rank, AllMet, AllAudited;
    var t := Built(es);
    BuiltFamily(es);
    forall c: nat | c < NR_TASKS
      ensures t.birth[c] < t.clock && (0 < c && t.used[c] ==> t.used[1] && (c > 1 ==> t.birth[1] < t.birth[c]))
    {
      SumAbove(Births(es), c);
      if 0 < c && t.used[c] { BuiltChild(es, c); }
    }
    BuiltSpecial(es);
  }

  lemma BuiltSpecial(es: seq<Entry>)
    requires |es| == NR_TASKS && Founded(es)
    ensures var t := Built(es);
      t.kids[0] == (if t.used[1] then [1] else [])
      && forall c: nat | c < NR_TASKS && (t.zombie[c] || !t.used[c]) :: t.kids[c] == []
  {
    assert es[1].Task? ==> Chain(es, 1, ENOUGH) == [1] + Chain(es, NULL, NR_TASKS);
  }

  /** A table is a family tree if and only if the audit finds nothing, the beginning is in order, and every
      task is met on a walk from task 0 along p_cptr and p_osptr. */
  lemma AuditExact(es: seq<Entry>)
    requires |es| == NR_TASKS
    ensures (exists t: Tree :: Inv(t) && Represents(es, t)) <==> AllAudited(es) && Founded(es) && AllMet(es)
  {
    hide Inv, Represents, AllAudited, Founded, AllMet;
    if t: Tree :| Inv(t) && Represents(es, t) {
      AuditClean(es, t);
      TreeFounded(es, t);
    } else if AllAudited(es) && Founded(es) && AllMet(es) {
      BuiltInv(es);
      assert false;
    }
  }

  /** Init without children and a task that takes init for its parent. */
  function Lost(): seq<Entry> {
    var free := seq(NR_TASKS, i => Empty);
    free[0 := Task(0, 1, NULL, NULL, Running, 0)]
        [1 := Task(0, NULL, NULL, NULL, Running, 0)]
        [2 := Task(1, NULL, NULL, NULL, Running, 0)]
  }

  /** The audit is not complete even where the beginning is in order: it accepts a table in which a task is not
      among its parent's children. */
  lemma AuditMisses(t: Tree)
    requires Inv(t)
    ensures AllAudited(Lost()) && Founded(Lost()) && !Represents(Lost(), t)
  {
    if Represents(Lost(), t) {
      assert Headed(Lost(), t, 2);
      var p, i := ChildAt(t, 2);
      assert Placed(Lost(), t, p, i);
      HeadAt(Lost(), t, 1);
      assert false;
    }
  }

  // ---------------------------------------------------------------- in the middle of a fork

  /** What copy_process has put into slot n while copy_mem may sleep: a copy of the parent, links and all. */
  function HalfForked(es: seq<Entry>, c: nat, n: nat): seq<Entry>
    requires c < |es| && n < |es| && es[c].Task?
  {
    es[n := es[c].(state := Uninterruptible)]
  }

  /** Should another task exit in the meantime, the audit prints warnings about the new entry, unless the
      parent has no child and no sibling; about the others it prints nothing. */
  lemma ForkWindow(es: seq<Entry>, t: Tree, c: nat, n: nat)
    requires Inv(t) && Represents(es, t) && Enabled(t, Fork(c, n)) && es[c].Task?
    ensures var fs := HalfForked(es, c, n);
      && (AllAudited(fs) <==> es[c].cptr == NULL && es[c].ysptr == NULL && es[c].osptr == NULL)
      && forall i: nat | 0 < i < |es| && i != n && es[i].Task? :: Audited(fs, i)
  {
    hide Inv, Represents, Audited;
    HeadAt(es, t, n);
    var fs := HalfForked(es, c, n);
    forall i: nat | 0 < i < |es| && i != n && es[i].Task? ensures Audited(fs, i) {
      CleanTask(es, t, i);
      StillAudited(es, i, fs, n);
    }
    if c > 0 { CleanTask(es, t, c); }
    CopyAudited(es, t, c, n);
    assert AllAudited(fs) <==> Audited(fs, n);
  }

  /** A task that passes has no link to a free slot. */
  lemma StillAudited(es: seq<Entry>, i: nat, fs: seq<Entry>, n: nat)
    requires i < |es| && n < |es| && i != n && es[i].Task? && Audited(es, i) && es[n].Empty?
    requires |fs| == |es| && fs[n].Task? && forall x: nat | x < |es| && x != n :: fs[x] == es[x]
    ensures Audited(fs, i)
  {
  }

  lemma CopyAudited(es: seq<Entry>, t: Tree, c: nat, n: nat)
    requires Inv(t) && Represents(es, t) && Enabled(t, Fork(c, n)) && es[c].Task? && es[n].Empty?
    requires c > 0 ==> Audited(es, c)
    ensures Audited(HalfForked(es, c, n), n) <==> es[c].cptr == NULL && es[c].ysptr == NULL && es[c].osptr == NULL
  {
    assert Headed(es, t, c);
    if c == 0 { assert t.kids[0] == []; }
  }
}
