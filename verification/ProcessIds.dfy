// The choice of a process number by find_empty_process of kernel/fork.c.

module ProcessIds {
  import opened Kernel
  import opened Sequences

  const PID_LIMIT: nat := 0x8000_0000

  /** The pid and the process group of a task. */
  datatype Ids = Ids(pid: nat, pgrp: nat)

  datatype Slot = Free | Used(ids: Ids)

  /** One more, and 1 where a 32-bit number would become negative. */
  function Successor(pid: nat): nat {
    if pid + 1 >= PID_LIMIT then 1 else pid + 1
  }

  function Later(pid: nat, n: nat): nat {
    if n == 0 then pid else Successor(Later(pid, n - 1))
  }

  predicate Clashes(s: Slot, pid: nat) {
    s.Used? && (s.ids.pid == pid || s.ids.pgrp == pid)
  }

  predicate Taken(tasks: seq<Slot>, pid: nat) {
    exists i: nat :: i < |tasks| && Clashes(tasks[i], pid)
  }

  lemma {:induction false} LaterIs(pid: nat, n: nat)
    requires pid < PID_LIMIT
    ensures n > 0 ==> 0 < Later(pid, n) < PID_LIMIT
    ensures n > 0 && pid + n < PID_LIMIT ==> Later(pid, n) == pid + n
    ensures n > 0 && PID_LIMIT <= pid + n < 2 * PID_LIMIT - 1 ==> Later(pid, n) == pid + n - (PID_LIMIT - 1)
  {
    if n > 0 { LaterIs(pid, n - 1); }
  }

  /** The first of them again only after all numbers. */
  lemma LaterDiffer(pid: nat, m: nat, n: nat)
    requires pid < PID_LIMIT && 0 < m < n < PID_LIMIT
    ensures Later(pid, m) != Later(pid, n)
  {
    LaterIs(pid, m);
    LaterIs(pid, n);
  }

  /** A task that has the number, and in which of the two roles; no two numbers share it. */
  function Witness(tasks: seq<Slot>, pid: nat): nat
    requires Taken(tasks, pid)
  {
    var i: nat := FirstClash(tasks, pid);
    if i < |tasks| && tasks[i].Used? && tasks[i].ids.pid == pid then 2 * i else 2 * i + 1
  }

  function FirstClash(tasks: seq<Slot>, pid: nat): (i: nat)
    ensures Taken(tasks, pid) ==> i < |tasks| && Clashes(tasks[i], pid)
  {
    if tasks == [] || Clashes(tasks[0], pid) then 0
    else
      assert Taken(tasks, pid) ==> Taken(tasks[1..], pid) by {
        if i: nat :| i < |tasks| && Clashes(tasks[i], pid) { assert tasks[1..][i - 1] == tasks[i]; }
      }
      1 + FirstClash(tasks[1..], pid)
  }

  lemma WitnessInjective(tasks: seq<Slot>, p: nat, q: nat)
    requires Taken(tasks, p) && Taken(tasks, q) && p != q
    ensures Witness(tasks, p) != Witness(tasks, q)
  {
  }

  /** So not more than twice as many numbers in a row are taken as there are tasks. */
  lemma {:induction false} FewTaken(tasks: seq<Slot>, pid: nat, n: nat)
    requires |tasks| == NR_TASKS && pid < PID_LIMIT && n < PID_LIMIT
    requires forall k: nat | 0 < k <= n :: Taken(tasks, Later(pid, k))
    ensures n <= 2 * NR_TASKS
  {
    var w := Witnesses(tasks, pid, n);
    forall i: nat, j: nat | i < j < n ensures w[i] != w[j] {
      LaterDiffer(pid, i + 1, j + 1);
      WitnessInjective(tasks, Later(pid, i + 1), Later(pid, j + 1));
    }
    forall i: nat | i < n ensures w[i] < 2 * NR_TASKS {
      WitnessBound(tasks, Later(pid, i + 1));
    }
    hide Later, Witness, Taken;
    DistinctBound(w, 2 * NR_TASKS);
  }

  function Witnesses(tasks: seq<Slot>, pid: nat, n: nat): (w: seq<nat>)
    requires forall k: nat | 0 < k <= n :: Taken(tasks, Later(pid, k))
    ensures |w| == n && forall i: nat | i < n :: w[i] == Witness(tasks, Later(pid, i + 1))
  {
    seq(n, i requires 0 <= i < n => Witness(tasks, Later(pid, i + 1)))
  }

  lemma WitnessBound(tasks: seq<Slot>, p: nat)
    requires Taken(tasks, p)
    ensures Witness(tasks, p) < 2 * |tasks|
  {
  }

  /** find_empty_process: the next number that no task has as its own or as its group, and the first free
      slot, NULL if there is none. The search ends after 129 numbers at most. */
  method FindEmptyProcess(tasks: seq<Slot>, lastPid: nat) returns (pid: nat, nr: int, ghost tries: nat)
    requires |tasks| == NR_TASKS && lastPid < PID_LIMIT
    ensures 0 < pid < PID_LIMIT && !Taken(tasks, pid) && pid == Later(lastPid, tries) && tries <= 2 * NR_TASKS + 1
    ensures forall k: nat | 0 < k < tries :: Taken(tasks, Later(lastPid, k))
    ensures nr == NULL ==> forall i: nat | 0 < i < NR_TASKS :: tasks[i].Used?
    ensures nr != NULL ==> 0 < nr < NR_TASKS && tasks[nr] == Free && forall i: nat | 0 < i < nr :: tasks[i].Used?
  {
    pid := lastPid;
    tries := 0;
    var clash := true;
    while clash
      invariant pid == Later(lastPid, tries) < PID_LIMIT && tries <= 2 * NR_TASKS + 1
      invariant forall k: nat | 0 < k < tries :: Taken(tasks, Later(lastPid, k))
      invariant tries == 0 ==> clash
      invariant tries > 0 ==> pid > 0 && clash == Taken(tasks, pid)
      decreases 2 * NR_TASKS + 1 - tries, clash
    {
      FewTaken(tasks, lastPid, tries);
      pid := Successor(pid);
      tries := tries + 1;
      clash := IsTaken(tasks, pid);
    }
    nr := 1;
    while nr < NR_TASKS && tasks[nr].Used?
      invariant 1 <= nr <= NR_TASKS && forall i: nat | 0 < i < nr :: tasks[i].Used?
    {
      nr := nr + 1;
    }
    if nr == NR_TASKS { nr := NULL; }
  }

  method IsTaken(tasks: seq<Slot>, pid: nat) returns (taken: bool)
    ensures taken == Taken(tasks, pid)
  {
    var i := 0;
    while i < |tasks|
      invariant 0 <= i <= |tasks| && forall j: nat | j < i :: !Clashes(tasks[j], pid)
    {
      if Clashes(tasks[i], pid) {
        return true;
      }
      i := i + 1;
    }
    taken := false;
  }
}
