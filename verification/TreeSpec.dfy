// The family tree of kernel/fork.c and kernel/exit.c: which tasks exist and whose children they are.

module TreeSpec {
  import opened Kernel
  import opened Sequences

  /** kids: the children of each task, youngest first. birth: when it was forked. */
  datatype TreeData = Tree(
    used: seq<bool>, zombie: seq<bool>, parent: seq<nat>, kids: seq<seq<nat>>, birth: seq<nat>, clock: nat)

  type Tree = t: TreeData | |t.used| == |t.zombie| == |t.parent| == |t.kids| == |t.birth| == NR_TASKS
    witness Start()

  /** Only task 0, its own parent. */
  function Start(): (t: TreeData)
    ensures |t.used| == |t.zombie| == |t.parent| == |t.kids| == |t.birth| == NR_TASKS
  {
    Tree(seq(NR_TASKS, i => i == 0), seq(NR_TASKS, i => false), seq(NR_TASKS, i => 0),
      seq(NR_TASKS, i => []), seq(NR_TASKS, i => 0), 1)
  }

  /** The children of p are other tasks with p as their parent, all younger than p. */
  ghost predicate Family(t: Tree) {
    && (forall p: nat, c: nat | p < NR_TASKS && c in t.kids[p] :: KidOf(t, p, c))
    && (forall p: nat | p < NR_TASKS :: Distinct(t.kids[p]))
    && (forall c: nat | 0 < c < NR_TASKS && t.used[c] :: HasPlace(t, c))
  }

  ghost predicate HasPlace(t: Tree, c: nat)
    requires c < NR_TASKS
  {
    t.parent[c] < NR_TASKS && c in t.kids[t.parent[c]]
  }

  ghost predicate KidOf(t: Tree, p: nat, c: nat)
    requires p < NR_TASKS
  {
    0 < c < NR_TASKS && t.used[c] && t.parent[c] == p && t.birth[p] < t.birth[c] < t.clock && t.used[p]
  }

  /** Task 0 has only init as a child, task 1; dead and free tasks have none. */
  ghost predicate Special(t: Tree) {
    && t.used[0] && !t.zombie[0] && !t.zombie[1] && t.birth[0] < t.clock
    && t.kids[0] == (if t.used[1] then [1] else [])
    && (!t.used[1] ==> forall c: nat | 0 < c < NR_TASKS :: !t.used[c])
    && (forall c: nat | c < NR_TASKS && (t.zombie[c] || !t.used[c]) :: t.kids[c] == [])
    && (forall c: nat | c < NR_TASKS && t.used[c] ::
        t.birth[c] < t.clock && (t.used[1] && c > 1 ==> t.birth[1] < t.birth[c]))
  }

  ghost predicate Inv(t: Tree) {
    Family(t) && Special(t)
  }

  datatype Step = Fork(c: nat, n: nat) | Exit(c: nat) | Reap(p: nat, k: nat)

  /** Task 0 forks only init, init never exits, and only dead children are reaped. */
  ghost predicate Enabled(t: Tree, e: Step) {
    match e
    case Fork(c, n) =>
      c < NR_TASKS && 0 < n < NR_TASKS && t.used[c] && !t.zombie[c] && !t.used[n] && (c == 0 <==> n == 1)
    case Exit(c) => 1 < c < NR_TASKS && t.used[c] && !t.zombie[c]
    case Reap(p, k) => p < NR_TASKS && k < NR_TASKS && t.used[p] && !t.zombie[p] && k in t.kids[p] && t.zombie[k]
  }

  function Without(s: seq<nat>, x: nat): seq<nat> {
    if x in s then Cut(s, IndexOf(s, x)) else s
  }

  function Next(t: Tree, e: Step): Tree {
    match e
    case Fork(c, n) =>
      if c >= NR_TASKS || n >= NR_TASKS then t
      else Tree(t.used[n := true], t.zombie[n := false], t.parent[n := c],
             t.kids[n := []][c := [n] + t.kids[c]], t.birth[n := t.clock], t.clock + 1)
    case Exit(c) =>
      if c >= NR_TASKS then t
      else t.(zombie := t.zombie[c := true],
              parent := seq(NR_TASKS, i requires 0 <= i < NR_TASKS => if i in t.kids[c] then 1 else t.parent[i]),
              kids := t.kids[1 := t.kids[c] + t.kids[1]][c := []])
    case Reap(p, k) =>
      if p >= NR_TASKS || k >= NR_TASKS then t
      else t.(used := t.used[k := false], zombie := t.zombie[k := false], kids := t.kids[p := Without(t.kids[p], k)])
  }

  lemma WithoutIs(s: seq<nat>, x: nat)
    requires Distinct(s)
    ensures Distinct(Without(s, x))
    ensures forall y: nat :: y in Without(s, x) <==> y in s && y != x
  {
    if x in s {
      CutIs(s, IndexOf(s, x));
    }
  }

  lemma ForkFamily(t: Tree, c: nat, n: nat)
    requires Inv(t) && Enabled(t, Fork(c, n))
    ensures Family(Next(t, Fork(c, n)))
  {
    var u := Next(t, Fork(c, n));
    forall p: nat, x: nat | p < NR_TASKS && x in u.kids[p] ensures KidOf(u, p, x) {
      ForkKid(t, c, n, p, x);
    }
    forall p: nat | p < NR_TASKS ensures Distinct(u.kids[p]) {
      ForkDistinct(t, c, n, p);
    }
    forall x: nat | 0 < x < NR_TASKS && u.used[x] ensures HasPlace(u, x) {
      ForkPlace(t, c, n, x);
    }
  }

  lemma ForkDistinct(t: Tree, c: nat, n: nat, p: nat)
    requires Inv(t) && Enabled(t, Fork(c, n)) && p < NR_TASKS
    ensures Distinct(Next(t, Fork(c, n)).kids[p])
  {
    assert n in t.kids[c] ==> KidOf(t, c, n);
    if p == c { JoinDistinct([n], t.kids[c]); }
  }

  lemma ForkPlace(t: Tree, c: nat, n: nat, x: nat)
    requires Inv(t) && Enabled(t, Fork(c, n)) && 0 < x < NR_TASKS && (t.used[x] || x == n)
    ensures HasPlace(Next(t, Fork(c, n)), x)
  {
    var u := Next(t, Fork(c, n));
    assert t.kids[n] == [];
    if x == n { assert u.kids[c][0] == n; } else { assert HasPlace(t, x); }
  }

  lemma ForkKid(t: Tree, c: nat, n: nat, p: nat, x: nat)
    requires Inv(t) && Enabled(t, Fork(c, n)) && p < NR_TASKS && x in Next(t, Fork(c, n)).kids[p]
    ensures KidOf(Next(t, Fork(c, n)), p, x)
  {
    if x in t.kids[p] { assert KidOf(t, p, x); }
  }

  lemma ForkSpecial(t: Tree, c: nat, n: nat)
    requires Inv(t) && Enabled(t, Fork(c, n))
    ensures Special(Next(t, Fork(c, n)))
  {
    hide Family;
  }

  lemma ExitFamily(t: Tree, c: nat)
    requires Inv(t) && Enabled(t, Exit(c))
    ensures Family(Next(t, Exit(c)))
  {
    var u := Next(t, Exit(c));
    forall p: nat, x: nat | p < NR_TASKS && x in u.kids[p] ensures KidOf(u, p, x) {
      ExitKid(t, c, p, x);
    }
    forall p: nat | p < NR_TASKS ensures Distinct(u.kids[p]) {
      ExitDistinct(t, c, p);
    }
    forall x: nat | 0 < x < NR_TASKS && u.used[x] ensures HasPlace(u, x) {
      ExitPlace(t, c, x);
    }
  }

  lemma ExitDistinct(t: Tree, c: nat, p: nat)
    requires Inv(t) && Enabled(t, Exit(c)) && p < NR_TASKS
    ensures Distinct(Next(t, Exit(c)).kids[p])
  {
    if p == 1 {
      forall x: nat ensures x !in t.kids[c] || x !in t.kids[1] {
        if x in t.kids[c] { assert KidOf(t, c, x); }
      }
      JoinDistinct(t.kids[c], t.kids[1]);
    }
  }

  lemma ExitPlace(t: Tree, c: nat, x: nat)
    requires Inv(t) && Enabled(t, Exit(c)) && 0 < x < NR_TASKS && t.used[x]
    ensures HasPlace(Next(t, Exit(c)), x)
  {
    var u := Next(t, Exit(c));
    assert HasPlace(t, x);
    assert u.kids[1] == t.kids[c] + t.kids[1];
    if x in t.kids[c] { assert KidOf(t, c, x); }
  }

  lemma ExitKid(t: Tree, c: nat, p: nat, x: nat)
    requires Inv(t) && Enabled(t, Exit(c)) && p < NR_TASKS && x in Next(t, Exit(c)).kids[p]
    ensures KidOf(Next(t, Exit(c)), p, x)
  {
    var u := Next(t, Exit(c));
    if x in t.kids[c] {
      assert KidOf(t, c, x);
      assert x in t.kids[p] ==> KidOf(t, p, x);
    } else {
      assert p != c && x in t.kids[p] && KidOf(t, p, x);
    }
  }

  lemma ExitSpecial(t: Tree, c: nat)
    requires Inv(t) && Enabled(t, Exit(c))
    ensures Special(Next(t, Exit(c)))
  {
    hide Family;
  }

  /** After a task has been reaped it is nobody's child and nobody's parent. */
  lemma ReapFamily(t: Tree, p: nat, k: nat)
    requires Inv(t) && Enabled(t, Reap(p, k))
    ensures Family(Next(t, Reap(p, k)))
    ensures var u := Next(t, Reap(p, k)); forall q: nat | q < NR_TASKS ::
      k !in u.kids[q] && (u.used[q] && q > 0 ==> u.parent[q] != k)
  {
    var u := Next(t, Reap(p, k));
    assert KidOf(t, p, k) && t.kids[k] == [];
    WithoutIs(t.kids[p], k);
    forall q: nat, x: nat | q < NR_TASKS && x in u.kids[q] ensures KidOf(u, q, x) && x != k {
      assert x in t.kids[q] && KidOf(t, q, x);
      assert q != k;
    }
    forall x: nat | 0 < x < NR_TASKS && u.used[x] ensures HasPlace(u, x) && u.parent[x] != k {
      assert HasPlace(t, x);
    }
  }

  lemma ReapSpecial(t: Tree, p: nat, k: nat)
    requires Inv(t) && Enabled(t, Reap(p, k))
    ensures Special(Next(t, Reap(p, k)))
  {
    assert KidOf(t, p, k);
    assert p != 0;
  }

  lemma NextInv(t: Tree, e: Step)
    requires Inv(t) && Enabled(t, e)
    ensures Inv(Next(t, e))
  {
    hide Family, Special, Next, Enabled;
    match e
    case Fork(c, n) => ForkFamily(t, c, n); ForkSpecial(t, c, n);
    case Exit(c) => ExitFamily(t, c); ExitSpecial(t, c);
    case Reap(p, k) => ReapFamily(t, p, k); ReapSpecial(t, p, k);
  }

  /** A new child is its parent's first; nobody else is touched. */
  lemma ForkOthers(t: Tree, c: nat, n: nat)
    requires Inv(t) && Enabled(t, Fork(c, n))
    ensures var u := Next(t, Fork(c, n));
      && u.used[n] && !u.zombie[n] && u.parent[n] == c && u.kids[c] == [n] + t.kids[c] && u.kids[n] == []
      && forall x: nat | x < NR_TASKS && x != n ::
        && u.used[x] == t.used[x] && u.zombie[x] == t.zombie[x] && u.parent[x] == t.parent[x]
        && (x != c ==> u.kids[x] == t.kids[x])
  {
  }

  /** Orphans go to init, before the children it had and in their order; the dead stay until they are reaped. */
  lemma ExitOthers(t: Tree, c: nat)
    requires Inv(t) && Enabled(t, Exit(c))
    ensures var u := Next(t, Exit(c));
      && u.used == t.used && u.zombie[c] && u.kids[c] == [] && u.kids[1] == t.kids[c] + t.kids[1]
      && (forall x: nat | x < NR_TASKS && x != c :: u.zombie[x] == t.zombie[x])
      && (forall x: nat | x < NR_TASKS && x != c && x != 1 :: u.kids[x] == t.kids[x])
      && (forall x: nat | 0 < x < NR_TASKS && t.used[x] :: u.parent[x] == if t.parent[x] == c then 1 else t.parent[x])
  {
    hide Special;
    forall x: nat | 0 < x < NR_TASKS && t.used[x] ensures x in t.kids[c] <==> t.parent[x] == c {
      assert HasPlace(t, x);
      if x in t.kids[c] { assert KidOf(t, c, x); }
    }
  }

  /** The task reaped is gone, its siblings keep their order, and nobody else is touched. */
  lemma ReapOthers(t: Tree, p: nat, k: nat)
    requires Inv(t) && Enabled(t, Reap(p, k))
    ensures var u := Next(t, Reap(p, k));
      && !u.used[k] && p == t.parent[k]
      && (forall x: nat | x < NR_TASKS && x != k ::
           u.used[x] == t.used[x] && u.zombie[x] == t.zombie[x] && u.parent[x] == t.parent[x])
      && (forall x: nat | x < NR_TASKS && x != p :: u.kids[x] == t.kids[x])
      && exists a: seq<nat>, b: seq<nat> :: t.kids[p] == a + [k] + b && u.kids[p] == a + b
  {
    hide Special;
    assert KidOf(t, p, k);
    var i := IndexOf(t.kids[p], k);
    var a, b := t.kids[p][..i], t.kids[p][i + 1..];
    assert t.kids[p] == a + [k] + b && Without(t.kids[p], k) == a + b;
  }

  lemma StartInv()
    ensures Inv(Start())
  {
  }

  ghost predicate Possible(t: Tree, run: seq<Step>)
    decreases |run|
  {
    run == [] || (Enabled(t, run[0]) && Possible(Next(t, run[0]), run[1..]))
  }

  function Run(t: Tree, run: seq<Step>): Tree
    decreases |run|
  {
    if run == [] then t else Run(Next(t, run[0]), run[1..])
  }

  /** Up the tree from c: init is reached. */
  ghost predicate FromInit(t: Tree, c: nat)
    requires c < NR_TASKS && Inv(t)
    decreases t.birth[c]
  {
    c == 1 || (c != 0 && t.used[c] && (assert KidOf(t, t.parent[c], c); FromInit(t, t.parent[c])))
  }

  lemma {:induction false} Descends(t: Tree, c: nat)
    requires Inv(t) && 0 < c < NR_TASKS && t.used[c]
    ensures FromInit(t, c)
    ensures c != 1 ==> t.kids[1] != []
    decreases t.birth[c]
  {
    if c != 1 {
      var p := t.parent[c];
      assert HasPlace(t, c) && KidOf(t, p, c);
      assert p != 0;
      Descends(t, p);
    }
  }

  /** Init has a child whenever another task exits, as do_exit takes for granted; every task but 0
      descends from init; and a task that is reaped has no children. */
  ghost predicate Sound(t: Tree) {
    && Inv(t)
    && (forall c: nat | 0 < c < NR_TASKS && t.used[c] :: FromInit(t, c))
    && (forall c: nat | Enabled(t, Exit(c)) :: t.used[1] && t.kids[1] != [])
    && (forall p: nat, k: nat | Enabled(t, Reap(p, k)) :: t.kids[k] == [] && k > 1)
  }

  lemma SoundNow(t: Tree)
    requires Inv(t)
    ensures Sound(t)
  {
    forall c: nat | 0 < c < NR_TASKS && t.used[c] ensures FromInit(t, c) && (c != 1 ==> t.kids[1] != []) {
      Descends(t, c);
    }
    forall p: nat, k: nat | Enabled(t, Reap(p, k)) ensures t.kids[k] == [] && k > 1 {
      assert KidOf(t, p, k);
    }
  }

  lemma {:induction false} EveryRun(t: Tree, run: seq<Step>)
    requires Inv(t) && Possible(t, run)
    ensures Sound(Run(t, run))
    decreases |run|
  {
    hide Inv, Enabled, Next;
    if run == [] {
      SoundNow(t);
    } else {
      NextInv(t, run[0]);
      EveryRun(Next(t, run[0]), run[1..]);
    }
  }
}
